/** The two grade formulas of the student service.  The averages that the grade repository
    computes and the team's total grade are parameters; an average over no grade is the
    `null` the repository returns. */
module SprintGrades {
  import opened Wrappers
  import opened Entities

  /** The sum of the bonus values, as `mapToDouble(Bonus::value).sum()`. */
  function BonusSum(bonuses: seq<Bonus>): real {
    if bonuses == [] then 0.0 else BonusSum(bonuses[..|bonuses| - 1]) + bonuses[|bonuses| - 1].value
  }

  /** Adding a bonus adds its value to the sum. */
  lemma BonusSumAppend(bonuses: seq<Bonus>, b: Bonus)
    ensures BonusSum(bonuses + [b]) == BonusSum(bonuses) + b.value
  {
    assert (bonuses + [b])[..|bonuses|] == bonuses;
  }

  /** The sum does not depend on the order of the bonuses: a bonus can be moved to the end. */
  lemma {:induction false} BonusSumMove(front: seq<Bonus>, b: Bonus, back: seq<Bonus>)
    ensures BonusSum(front + [b] + back) == BonusSum(front + back + [b])
    decreases |back|
  {
    if back == [] {
      assert front + [b] + back == front + [b];
      assert front + back + [b] == front + [b];
    } else {
      var init, last := back[..|back| - 1], back[|back| - 1];
      assert front + [b] + back == (front + [b] + init) + [last];
      assert front + back + [b] == (front + init + [last]) + [b];
      BonusSumAppend(front + [b] + init, last);
      BonusSumMove(front, b, init);
      BonusSumAppend(front + init + [b], last);
      assert front + init + [b] + [last] == (front + init) + [b] + [last];
      BonusSumAppend(front + init, b);
      BonusSumAppend(front + init, last);
      BonusSumAppend(front + init + [last], b);
      BonusSumAppend(front + init + [b], last);
    }
  }

  /** `getIndividualTotalGrade`: twice the individual average plus the team average graded
      by the student, over three; a missing average makes the unboxing throw. */
  function IndividualTotalGrade(individual: Option<real>, teamGraded: Option<real>): (r: Result<real>)
    ensures r.Err? <==> individual.None? || teamGraded.None?
    ensures r.Err? ==> r.error == NullPointer
  {
    if individual.None? || teamGraded.None? then Err(NullPointer)
    else Ok((2.0 * individual.value + teamGraded.value) / 3.0)
  }

  function Min(a: real, b: real): real {
    if a <= b then a else b
  }

  /** `getSprintGrade`: 70 % of the team grade plus the bonuses, capped at 20, and 30 % of
      the individual total. */
  function SprintGrade(teamGrade: real, bonuses: seq<Bonus>, individual: Option<real>, teamGraded: Option<real>)
    : (r: Result<real>)
    ensures r.Err? <==> IndividualTotalGrade(individual, teamGraded).Err?
    ensures r.Err? ==> r.error == NullPointer
  {
    match IndividualTotalGrade(individual, teamGraded)
    case Err(e) => Err(e)
    case Ok(total) => Ok(0.7 * Min(teamGrade + BonusSum(bonuses), 20.0) + 0.3 * total)
  }

  /** The individual total is a weighted mean of its two averages, so it lies between them. */
  lemma IndividualTotalBetween(individual: real, teamGraded: real)
    ensures var t := IndividualTotalGrade(Some(individual), Some(teamGraded)).value;
      Min(individual, teamGraded) <= t && t <= -Min(-individual, -teamGraded)
  {
  }

  /** With grades out of 20 everywhere, the sprint grade is out of 20 too. */
  lemma SprintGradeWithin(teamGrade: real, bonuses: seq<Bonus>, individual: real, teamGraded: real)
    requires 0.0 <= teamGrade + BonusSum(bonuses)
    requires 0.0 <= individual <= 20.0 && 0.0 <= teamGraded <= 20.0
    ensures var g := SprintGrade(teamGrade, bonuses, Some(individual), Some(teamGraded)).value;
      0.0 <= g <= 20.0
  {
    IndividualTotalBetween(individual, teamGraded);
  }

  /** Bonuses never lower the sprint grade, and past the cap of 20 they no longer raise it. */
  lemma MoreBonusNeverLowers(teamGrade: real, bonuses: seq<Bonus>, b: Bonus, individual: real, teamGraded: real)
    requires b.value >= 0.0
    ensures var before := SprintGrade(teamGrade, bonuses, Some(individual), Some(teamGraded)).value;
      var after := SprintGrade(teamGrade, bonuses + [b], Some(individual), Some(teamGraded)).value;
      before <= after && (teamGrade + BonusSum(bonuses) >= 20.0 ==> after == before)
  {
    BonusSumAppend(bonuses, b);
  }

  /** A worked case: team 15 with bonuses 1 and 2, individual 12 and team-graded 15 give an
      individual total of 13 and a sprint grade of 16.5; team 19 with a bonus of 3 is
      capped at 20. */
  lemma SprintGradeExample(b1: Bonus, b2: Bonus, b3: Bonus)
    requires b1.value == 1.0 && b2.value == 2.0 && b3.value == 3.0
    ensures IndividualTotalGrade(Some(12.0), Some(15.0)) == Ok(13.0)
    ensures SprintGrade(15.0, [b1, b2], Some(12.0), Some(15.0)) == Ok(16.5)
    ensures SprintGrade(19.0, [b3], Some(12.0), Some(15.0)) == Ok(17.9)
  {
    BonusSumAppend([], b1);
    BonusSumAppend([b1], b2);
    BonusSumAppend([], b3);
    assert [b1] + [b2] == [b1, b2];
  }
}
