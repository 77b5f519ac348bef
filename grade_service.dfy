/** Grade computations of the grade service: the weighted mean of a student's imported
    grades, the selection of the grades that enter it, the creation of grades from one
    imported CSV row, and the grade assignment by team or student name.  Repository reads
    are parameters; the number parser `Float.parseFloat` is the partial function `parse`. */
module GradeService {
  import opened Wrappers
  import opened JavaStrings
  import opened Sequences
  import opened Entities

  // ------------------------------------------------------------------ weighted mean

  /** The sum of `value * factor` over `gs`, accumulated from the front. */
  function WeightedSum(gs: seq<Grade>): real {
    if gs == [] then 0.0
    else WeightedSum(gs[..|gs| - 1]) + gs[|gs| - 1].value * gs[|gs| - 1].gradeType.factor
  }

  /** The sum of the factors over `gs`, accumulated from the front. */
  function FactorSum(gs: seq<Grade>): real {
    if gs == [] then 0.0 else FactorSum(gs[..|gs| - 1]) + gs[|gs| - 1].gradeType.factor
  }

  /** The mean the service promises: `0` when the factors sum to zero, otherwise the
      weighted sum over the factor sum. */
  function MeanSpec(gs: seq<Grade>): real {
    if FactorSum(gs) == 0.0 then 0.0 else WeightedSum(gs) / FactorSum(gs)
  }

  /** `mean`: one pass accumulating the total and the factors. */
  method Mean(grades: seq<Grade>) returns (m: real)
    ensures m == MeanSpec(grades)
  {
    var total := 0.0;
    var factors := 0.0;
    var i := 0;
    while i < |grades|
      invariant 0 <= i <= |grades|
      invariant total == WeightedSum(grades[..i]) && factors == FactorSum(grades[..i])
    {
      assert grades[..i + 1][..i] == grades[..i];
      total := total + grades[i].value * grades[i].gradeType.factor;
      factors := factors + grades[i].gradeType.factor;
      i := i + 1;
    }
    assert grades[..i] == grades;
    if factors == 0.0 {
      return 0.0;
    }
    return total / factors;
  }

  predicate NonNegativeFactors(gs: seq<Grade>) {
    forall k :: 0 <= k < |gs| ==> ValidFactor(gs[k].gradeType)
  }

  /** Every value of `gs` is between `lo` and `hi`. */
  predicate ValuesWithin(gs: seq<Grade>, lo: real, hi: real) {
    forall k :: 0 <= k < |gs| ==> lo <= gs[k].value <= hi
  }

  lemma {:induction false} FactorSumNonNegative(gs: seq<Grade>)
    requires NonNegativeFactors(gs)
    ensures FactorSum(gs) >= 0.0
  {
    if gs != [] {
      FactorSumNonNegative(gs[..|gs| - 1]);
    }
  }

  /** The weighted sum is bracketed by the factor sum scaled by the bounds of the values. */
  lemma {:induction false} WeightedSumWithin(gs: seq<Grade>, lo: real, hi: real)
    requires NonNegativeFactors(gs) && ValuesWithin(gs, lo, hi)
    ensures lo * FactorSum(gs) <= WeightedSum(gs) <= hi * FactorSum(gs)
  {
    if gs != [] {
      var init, g := gs[..|gs| - 1], gs[|gs| - 1];
      WeightedSumWithin(init, lo, hi);
      var f := g.gradeType.factor;
      assert f >= 0.0 && lo <= g.value <= hi;
      assert (g.value - lo) * f >= 0.0;
      assert (hi - g.value) * f >= 0.0;
      assert lo * FactorSum(gs) == lo * FactorSum(init) + lo * f;
      assert hi * FactorSum(gs) == hi * FactorSum(init) + hi * f;
    }
  }

  /** With non-negative factors and a positive factor sum, the mean lies between the
      smallest and the largest value. */
  lemma MeanWithin(gs: seq<Grade>, lo: real, hi: real)
    requires NonNegativeFactors(gs) && ValuesWithin(gs, lo, hi)
    requires FactorSum(gs) > 0.0
    ensures lo <= MeanSpec(gs) <= hi
  {
    WeightedSumWithin(gs, lo, hi);
    var f, w := FactorSum(gs), WeightedSum(gs);
    assert w / f * f == w;
    if w / f < lo {
      assert w / f * f < lo * f;
    }
    if w / f > hi {
      assert w / f * f > hi * f;
    }
  }

  /** No grade, no mean: the result is 0. */
  lemma MeanEmpty()
    ensures MeanSpec([]) == 0.0
  {
  }

  /** When every factor is zero the values do not matter. */
  lemma {:induction false} MeanZeroFactors(gs: seq<Grade>)
    requires forall k :: 0 <= k < |gs| ==> gs[k].gradeType.factor == 0.0
    ensures FactorSum(gs) == 0.0 && MeanSpec(gs) == 0.0
  {
    if gs != [] {
      MeanZeroFactors(gs[..|gs| - 1]);
    }
  }

  /** Values 90 and 80 with factors 2 and 1 give 260 / 3 (about 86.67). */
  lemma MeanExample(t2: GradeType, t1: GradeType, sid: Option<int>)
    requires t2.factor == 2.0 && t1.factor == 1.0
    ensures MeanSpec([Grade(90.0, t2, sid, None, None, None), Grade(80.0, t1, sid, None, None, None)]) == 260.0 / 3.0
  {
    var gs := [Grade(90.0, t2, sid, None, None, None), Grade(80.0, t1, sid, None, None, None)];
    var first := gs[..1];
    assert gs[..|gs| - 1] == first && first[..0] == [];
    assert FactorSum(first) == 2.0 && WeightedSum(first) == 180.0;
    assert FactorSum(gs) == 3.0;
    assert WeightedSum(gs) == 260.0;
  }

  // ------------------------------------------------------------------ updateImportedMean

  /** A grade enters the imported mean of the student with id `sid` when it is that
      student's, its type is imported, and its type is not named "mean" or "average" in
      any capitalisation. */
  predicate EntersImportedMean(g: Grade, sid: Option<int>) {
    && g.student.Some? && g.student == sid
    && g.gradeType.imported
    && !EqualsIgnoreCase(g.gradeType.name, "mean")
    && !EqualsIgnoreCase(g.gradeType.name, "average")
  }

  /** The grades that enter the imported mean of student `sid`, in their original order. */
  function SelectImportedGrades(grades: seq<Grade>, sid: Option<int>): (r: seq<Grade>)
    ensures |r| <= |grades|
  {
    if grades == [] then []
    else
      var init, g := grades[..|grades| - 1], grades[|grades| - 1];
      SelectImportedGrades(init, sid) + (if EntersImportedMean(g, sid) then [g] else [])
  }

  /** Exactly the grades that pass the filter are selected. */
  lemma {:induction false} SelectedIff(grades: seq<Grade>, sid: Option<int>)
    ensures forall g :: g in SelectImportedGrades(grades, sid) <==> g in grades && EntersImportedMean(g, sid)
  {
    if grades != [] {
      var init, g := grades[..|grades| - 1], grades[|grades| - 1];
      assert grades == init + [g];
      SelectedIff(init, sid);
    }
  }

  /** The selection is the sub-list of the grades that pass the filter: selected grade `k`
      is the grade at the `k`-th position that passes, so order and repeated grades are kept. */
  lemma {:induction false} SelectedInOrder(grades: seq<Grade>, sid: Option<int>)
    ensures var r, idx := SelectImportedGrades(grades, sid), KeptIndices(grades, g => EntersImportedMean(g, sid));
      |r| == |idx| && forall k :: 0 <= k < |idx| ==> r[k] == grades[idx[k]]
  {
    if grades != [] {
      var n := |grades| - 1;
      var init := grades[..n];
      SelectedInOrder(init, sid);
      var r0, idx0 := SelectImportedGrades(init, sid), KeptIndices(init, g => EntersImportedMean(g, sid));
      var r, idx := SelectImportedGrades(grades, sid), KeptIndices(grades, g => EntersImportedMean(g, sid));
      assert |r| == |idx| && r[..|r0|] == r0 && idx[..|idx0|] == idx0 by {
        if EntersImportedMean(grades[n], sid) {
          assert r == r0 + [grades[n]] && idx == idx0 + [n];
        } else {
          assert r == r0 && idx == idx0;
        }
      }
      forall k | 0 <= k < |idx| ensures r[k] == grades[idx[k]] {
        if k < |idx0| {
          assert r[k] == r0[k] && idx[k] == idx0[k] && init[idx0[k]] == grades[idx0[k]];
        }
      }
    }
  }

  /** A grade that passes the filter is selected as many times as it occurs; any other
      grade is not selected. */
  lemma {:induction false} SelectedCounts(grades: seq<Grade>, sid: Option<int>)
    ensures forall x ::
      multiset(SelectImportedGrades(grades, sid))[x] == if EntersImportedMean(x, sid) then multiset(grades)[x] else 0
  {
    if grades != [] {
      var init, g := grades[..|grades| - 1], grades[|grades| - 1];
      assert grades == init + [g];
      SelectedCounts(init, sid);
    }
  }

  /** The students whose imported mean is recomputed: the non-bachelor ones, in order. */
  function NonBachelors(students: seq<Student>): (r: seq<Student>)
    ensures |r| <= |students|
  {
    if students == [] then []
    else
      var init, s := students[..|students| - 1], students[|students| - 1];
      NonBachelors(init) + (if s.bachelor then [] else [s])
  }

  /** Exactly the non-bachelor students are updated. */
  lemma {:induction false} NonBachelorsIff(students: seq<Student>)
    ensures forall s :: s in NonBachelors(students) <==> s in students && !s.bachelor
  {
    if students != [] {
      var init, s := students[..|students| - 1], students[|students| - 1];
      assert students == init + [s];
      NonBachelorsIff(init);
    }
  }

  /** The updated students are the sub-list of the non-bachelors, in order, repetitions
      kept. */
  lemma {:induction false} NonBachelorsInOrder(students: seq<Student>)
    ensures var r, idx := NonBachelors(students), KeptIndices(students, (s: Student) => !s.bachelor);
      |r| == |idx| && forall k :: 0 <= k < |idx| ==> r[k] == students[idx[k]]
  {
    if students != [] {
      var n := |students| - 1;
      var init := students[..n];
      NonBachelorsInOrder(init);
      var r0, idx0 := NonBachelors(init), KeptIndices(init, (s: Student) => !s.bachelor);
      var r, idx := NonBachelors(students), KeptIndices(students, (s: Student) => !s.bachelor);
      assert |r| == |idx| && r[..|r0|] == r0 && idx[..|idx0|] == idx0 by {
        if !students[n].bachelor {
          assert r == r0 + [students[n]] && idx == idx0 + [n];
        } else {
          assert r == r0 && idx == idx0;
        }
      }
      forall k | 0 <= k < |idx| ensures r[k] == students[idx[k]] {
        if k < |idx0| {
          assert r[k] == r0[k] && idx[k] == idx0[k] && init[idx0[k]] == students[idx0[k]];
        }
      }
    }
  }

  /** A non-bachelor is updated as many times as it occurs; a bachelor never is. */
  lemma {:induction false} NonBachelorsCounts(students: seq<Student>)
    ensures forall x :: multiset(NonBachelors(students))[x] == if x.bachelor then 0 else multiset(students)[x]
  {
    if students != [] {
      var init, s := students[..|students| - 1], students[|students| - 1];
      assert students == init + [s];
      NonBachelorsCounts(init);
    }
  }

  /** `updateImportedMean`: one repository update per non-bachelor student, with the weighted
      mean of that student's selected grades. */
  method UpdateImportedMean(students: seq<Student>, grades: seq<Grade>) returns (updates: seq<(Option<int>, real)>)
    ensures |updates| == |NonBachelors(students)|
    ensures forall k :: 0 <= k < |updates| ==>
      updates[k] == (NonBachelors(students)[k].id, MeanSpec(SelectImportedGrades(grades, NonBachelors(students)[k].id)))
  {
    updates := [];
    var i := 0;
    while i < |students|
      invariant 0 <= i <= |students|
      invariant |updates| == |NonBachelors(students[..i])|
      invariant forall k :: 0 <= k < |updates| ==>
        updates[k] == (NonBachelors(students[..i])[k].id,
                       MeanSpec(SelectImportedGrades(grades, NonBachelors(students[..i])[k].id)))
    {
      NonBachelorsStep(students, i);
      var student := students[i];
      if student.bachelor {
        i := i + 1;
        continue;
      }
      var m := Mean(SelectImportedGrades(grades, student.id));
      updates := updates + [(student.id, m)];
      i := i + 1;
    }
    assert students[..i] == students;
  }

  lemma NonBachelorsStep(students: seq<Student>, i: int)
    requires 0 <= i < |students|
    ensures NonBachelors(students[..i + 1])
            == NonBachelors(students[..i]) + (if students[i].bachelor then [] else [students[i]])
  {
    assert students[..i + 1][..i] == students[..i];
  }

  /** A bachelor student is never updated. */
  lemma BachelorsNotUpdated(students: seq<Student>, s: Student)
    requires s in students && s.bachelor
    ensures s !in NonBachelors(students)
  {
    NonBachelorsIff(students);
  }

  /** Another student's grades, non-imported types, and types named "Mean" or "AVERAGE" do
      not enter a student's imported mean. */
  lemma SelectionExcludes(grades: seq<Grade>, g: Grade, sid: Option<int>)
    requires g in grades
    requires g.student != sid || !g.gradeType.imported
             || g.gradeType.name == "Mean" || g.gradeType.name == "AVERAGE"
    ensures g !in SelectImportedGrades(grades, sid)
  {
    SelectedIff(grades, sid);
    if g.gradeType.name == "Mean" {
      assert ToLower("Mean") == "mean";
    }
    if g.gradeType.name == "AVERAGE" {
      assert ToLower("AVERAGE") == "average";
    }
  }

  // ------------------------------------------------------------------ createGradesFromGradeTypesAndValues

  /** What cell `i` of an imported row produces: nothing for a blank cell; for cell 0 a
      parse failure is an error, for later cells it is skipped; a parsed value needs the
      grade type at the same index. */
  function CellGrade(i: nat, cell: string, types: seq<GradeType>, parse: string -> Option<real>,
                     sid: Option<int>, comment: Option<string>): Result<Option<Grade>>
  {
    var v := Trim(cell);
    if v == [] then Ok(None)
    else match parse(v)
      case None => if i == 0 then Err(NumberFormat) else Ok(None)
      case Some(x) => if i < |types| then Ok(Some(Grade(x, types[i], sid, None, None, comment))) else Err(IndexOutOfBounds)
  }

  /** The cell rule, case by case. */
  lemma CellGradeRule(i: nat, cell: string, types: seq<GradeType>, parse: string -> Option<real>,
                      sid: Option<int>, comment: Option<string>)
    ensures var r := CellGrade(i, cell, types, parse, sid, comment);
      && (IsBlank(cell) ==> r == Ok(None))
      && (!IsBlank(cell) && parse(Trim(cell)).None? ==> r == (if i == 0 then Err(NumberFormat) else Ok(None)))
      && (!IsBlank(cell) && parse(Trim(cell)).Some? && i >= |types| ==> r == Err(IndexOutOfBounds))
      && (r.Ok? && r.value.Some? <==> !IsBlank(cell) && parse(Trim(cell)).Some? && i < |types|)
      && (r.Ok? && r.value.Some? ==>
            r.value.value == Grade(parse(Trim(cell)).value, types[i], sid, None, None, comment))
  {
  }

  /** The outcome of a row: the grades created so far and the error that stopped the loop. */
  datatype RowOutcome = RowOutcome(created: seq<Grade>, err: Option<Error>)

  /** The outcome of processing the cells `values` left to right, stopping at the first error. */
  function RowGrades(values: seq<string>, types: seq<GradeType>, parse: string -> Option<real>,
                     sid: Option<int>, comment: Option<string>): (o: RowOutcome)
    ensures |o.created| <= |values|
  {
    if values == [] then RowOutcome([], None)
    else
      var prev := RowGrades(values[..|values| - 1], types, parse, sid, comment);
      if prev.err.Some? then prev
      else match CellGrade(|values| - 1, values[|values| - 1], types, parse, sid, comment)
        case Err(e) => RowOutcome(prev.created, Some(e))
        case Ok(None) => prev
        case Ok(Some(g)) => RowOutcome(prev.created + [g], None)
  }

  /** `createGradesFromGradeTypesAndValues`: the index loop over the cells; the grades are
      saved as they are created, so those created before an error remain. */
  method CreateGradesFromGradeTypesAndValues(student: Student, values: seq<string>, types: seq<GradeType>,
                                             parse: string -> Option<real>, comment: Option<string>)
    returns (created: seq<Grade>, err: Option<Error>)
    ensures RowOutcome(created, err) == RowGrades(values, types, parse, student.id, comment)
  {
    created := [];
    var i := 0;
    while i < |values|
      invariant 0 <= i <= |values|
      invariant RowGrades(values[..i], types, parse, student.id, comment) == RowOutcome(created, None)
    {
      assert values[..i + 1][..i] == values[..i];
      var gradeValue := Trim(values[i]);
      if gradeValue != [] {
        if i == 0 {
          var parsed := parse(gradeValue);
          if parsed.None? {
            StopAt(values, i, types, parse, student.id, comment);
            return created, Some(NumberFormat);
          }
          if |types| == 0 {
            StopAt(values, i, types, parse, student.id, comment);
            return created, Some(IndexOutOfBounds);
          }
          created := created + [Grade(parsed.value, types[0], student.id, None, None, comment)];
        } else {
          var parsed := parse(gradeValue);
          if parsed.Some? {
            if i >= |types| {
              StopAt(values, i, types, parse, student.id, comment);
              return created, Some(IndexOutOfBounds);
            }
            created := created + [Grade(parsed.value, types[i], student.id, None, None, comment)];
          }
        }
      }
      i := i + 1;
    }
    assert values[..i] == values;
    return created, None;
  }

  /** An error at some cell stays: later cells are not processed. */
  lemma {:induction false} RowErrorSticks(values: seq<string>, more: seq<string>, types: seq<GradeType>,
                                          parse: string -> Option<real>, sid: Option<int>, comment: Option<string>)
    requires RowGrades(values, types, parse, sid, comment).err.Some?
    ensures RowGrades(values + more, types, parse, sid, comment) == RowGrades(values, types, parse, sid, comment)
    decreases |more|
  {
    if more != [] {
      var init := more[..|more| - 1];
      assert (values + more)[..|values + more| - 1] == values + init;
      RowErrorSticks(values, init, types, parse, sid, comment);
    } else {
      assert values + more == values;
    }
  }

  /** A row completes without error exactly when no cell is an error. */
  lemma {:induction false} RowGradesNoError(values: seq<string>, types: seq<GradeType>,
                                            parse: string -> Option<real>, sid: Option<int>, comment: Option<string>)
    ensures RowGrades(values, types, parse, sid, comment).err.None?
            <==> forall i :: 0 <= i < |values| ==> CellGrade(i, values[i], types, parse, sid, comment).Ok?
  {
    if values != [] {
      var init := values[..|values| - 1];
      RowGradesNoError(init, types, parse, sid, comment);
      var prev := RowGrades(init, types, parse, sid, comment);
      assert forall i :: 0 <= i < |init| ==> init[i] == values[i];
      if prev.err.Some? {
        var i :| 0 <= i < |init| && !CellGrade(i, init[i], types, parse, sid, comment).Ok?;
        assert !CellGrade(i, values[i], types, parse, sid, comment).Ok?;
      }
    }
  }

  /** When a row completes without error, every non-blank cell that parses has produced its
      grade, bound to the grade type at the cell's index. */
  lemma {:induction false} RowGradesCreated(values: seq<string>, types: seq<GradeType>,
                                            parse: string -> Option<real>, sid: Option<int>, comment: Option<string>)
    requires RowGrades(values, types, parse, sid, comment).err.None?
    ensures forall i :: 0 <= i < |values| && !IsBlank(values[i]) && parse(Trim(values[i])).Some? ==>
              i < |types| && Grade(parse(Trim(values[i])).value, types[i], sid, None, None, comment)
                              in RowGrades(values, types, parse, sid, comment).created
  {
    if values != [] {
      var init := values[..|values| - 1];
      var prev := RowGrades(init, types, parse, sid, comment);
      assert prev.err.None?;
      RowGradesCreated(init, types, parse, sid, comment);
      var cur := RowGrades(values, types, parse, sid, comment);
      assert forall j :: 0 <= j < |init| ==> init[j] == values[j];
      assert forall g :: g in prev.created ==> g in cur.created;
    }
  }

  /** When the row raises no error, its grades are exactly those of the cells that parse,
      in cell order, each of the grade type at its cell's index. */
  lemma {:induction false} RowGradesExactly(values: seq<string>, types: seq<GradeType>,
                                            parse: string -> Option<real>, sid: Option<int>, comment: Option<string>)
    requires RowGrades(values, types, parse, sid, comment).err.None?
    ensures var idx, gs := ParsedIndices(values, parse), RowGrades(values, types, parse, sid, comment).created;
      && |gs| == |idx|
      && forall k :: 0 <= k < |idx| ==>
           idx[k] < |types| && Parses(values[idx[k]], parse)
           && gs[k] == Grade(parse(Trim(values[idx[k]])).value, types[idx[k]], sid, None, None, comment)
  {
    if values != [] {
      var n := |values| - 1;
      var init := values[..n];
      var prev := RowGrades(init, types, parse, sid, comment);
      assert prev.err.None?;
      RowGradesExactly(init, types, parse, sid, comment);
      var idx0, idx := ParsedIndices(init, parse), ParsedIndices(values, parse);
      var gs := RowGrades(values, types, parse, sid, comment).created;
      CellGradeRule(n, values[n], types, parse, sid, comment);
      var last := CellGrade(n, values[n], types, parse, sid, comment);
      assert last.Ok?;
      assert |idx| == |gs| && gs[..|prev.created|] == prev.created && idx[..|idx0|] == idx0 by {
        if last.value.Some? {
          assert idx == idx0 + [n] && gs == prev.created + [last.value.value];
        } else {
          assert idx == idx0 && gs == prev.created;
        }
      }
      forall k | 0 <= k < |idx|
        ensures idx[k] < |types| && Parses(values[idx[k]], parse)
                && gs[k] == Grade(parse(Trim(values[idx[k]])).value, types[idx[k]], sid, None, None, comment)
      {
        if k < |idx0| {
          assert idx[k] == idx0[k] && gs[k] == prev.created[k];
          assert values[idx0[k]] == init[idx0[k]];
        } else {
          assert idx[k] == n && last.value.Some? && gs[k] == last.value.value;
        }
      }
    }
  }

  /** The outcome of the whole row is that of its prefix up to an error. */
  lemma StopAt(values: seq<string>, i: int, types: seq<GradeType>, parse: string -> Option<real>,
               sid: Option<int>, comment: Option<string>)
    requires 0 <= i < |values|
    requires RowGrades(values[..i + 1], types, parse, sid, comment).err.Some?
    ensures RowGrades(values, types, parse, sid, comment) == RowGrades(values[..i + 1], types, parse, sid, comment)
  {
    RowErrorSticks(values[..i + 1], values[i + 1..], types, parse, sid, comment);
    assert values[..i + 1] + values[i + 1..] == values;
  }

  /** No cell, no grade. */
  lemma NoCellsNoGrades(types: seq<GradeType>, parse: string -> Option<real>, sid: Option<int>, comment: Option<string>)
    ensures RowGrades([], types, parse, sid, comment) == RowOutcome([], None)
  {
  }

  /** An unparsable first cell is an error, an unparsable later cell is not. */
  lemma UnparsableCells(a: string, b: string, types: seq<GradeType>, parse: string -> Option<real>,
                        sid: Option<int>, comment: Option<string>)
    requires !IsBlank(a) && parse(Trim(a)).None?
    requires !IsBlank(b) && parse(Trim(b)).None?
    ensures RowGrades([a], types, parse, sid, comment) == RowOutcome([], Some(NumberFormat))
    ensures CellGrade(1, b, types, parse, sid, comment) == Ok(None)
  {
    assert [a][..0] == [];
  }

  // ------------------------------------------------------------------ assignment by name

  /** `assignGradeToTeam`: the team is looked up by name (`teams` maps names to ids); an
      unknown team is an IllegalArgument error.  The grade is the integer value, as a number. */
  function AssignGradeToTeam(teams: map<string, int>, teamName: string, value: int, gradeType: GradeType): (r: Result<Grade>)
    ensures r.Err? <==> teamName !in teams
    ensures r.Err? ==> r.error == IllegalArgument
    ensures r.Ok? ==> r.value.team == Some(teams[teamName]) && r.value.student.None?
                      && r.value.value == value as real && r.value.gradeType == gradeType
  {
    if teamName in teams then Ok(Grade(value as real, gradeType, None, Some(teams[teamName]), None, None))
    else Err(IllegalArgument)
  }

  /** `assignGradeToStudent`: an unknown student creates nothing, and is not an error. */
  function AssignGradeToStudent(students: map<string, int>, studentName: string, value: int, gradeType: GradeType): (r: Option<Grade>)
    ensures r.None? <==> studentName !in students
    ensures r.Some? ==> r.value.student == Some(students[studentName]) && r.value.team.None?
                        && r.value.value == value as real && r.value.gradeType == gradeType
  {
    if studentName in students then Some(Grade(value as real, gradeType, Some(students[studentName]), None, None, None))
    else None
  }
}
