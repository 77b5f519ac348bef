/** The team criteria computed by the team controller: a women percentage against the
    project's target and the presence of a bachelor student. */
module TeamCriteria {
  import opened Wrappers
  import opened Arith

  /** The criteria record.  `nbStudents` is `None` when the builder leaves it unset. */
  datatype Criteria = Criteria(
    nbWomen: int,
    nbBachelor: int,
    nbStudents: Option<int>,
    validateWoman: bool,
    validateBachelor: bool)

  /** Java's `/` on `int`: the quotient truncated toward zero. */
  function JavaDiv(a: int, b: int): (q: int)
    requires b > 0
  {
    if a >= 0 then a / b else -((-a) / b)
  }

  /** `TeamController.getCriteria`, with the project's target percentage `womenPerTeam`
      passed in instead of being read from the project. */
  function GetCriteria(womenPerTeam: int, nbStudents: int, nbWomen: int, nbBachelor: int): (c: Criteria)
    ensures c.nbWomen == nbWomen && c.nbBachelor == nbBachelor && c.nbStudents == Some(nbStudents)
    ensures nbStudents <= 0 ==> !c.validateWoman
    ensures nbWomen >= 0 ==> (c.validateWoman <==> nbStudents > 0 && 100 * nbWomen >= womenPerTeam * nbStudents)
    ensures c.validateBachelor <==> nbBachelor >= 1
  {
    var validateWoman := nbStudents > 0 && JavaDiv(nbWomen * 100, nbStudents) >= womenPerTeam;
    assert nbWomen >= 0 && nbStudents > 0 ==>
        (JavaDiv(nbWomen * 100, nbStudents) >= womenPerTeam <==> nbWomen * 100 >= womenPerTeam * nbStudents) by {
      if nbWomen >= 0 && nbStudents > 0 {
        DivAtLeast(nbWomen * 100, nbStudents, womenPerTeam);
      }
    }
    Criteria(nbWomen, nbBachelor, Some(nbStudents), validateWoman, nbBachelor >= 1)
  }

  /** Truncating division is monotone in the dividend. */
  lemma JavaDivMonotone(a: int, a': int, b: int)
    requires b > 0 && a <= a'
    ensures JavaDiv(a, b) <= JavaDiv(a', b)
  {
    if a' < 0 {
      DivMonotone(-a', -a, b);
    } else if a < 0 {
      DivNonNegative(-a, b);
      DivNonNegative(a', b);
    } else {
      DivMonotone(a, a', b);
    }
  }

  /** With the team size and the target fixed, more women never invalidate the women criterion. */
  lemma MoreWomenKeepsValidation(womenPerTeam: int, nbStudents: int, nbWomen: int, nbWomen': int, nbBachelor: int)
    requires nbWomen <= nbWomen'
    requires GetCriteria(womenPerTeam, nbStudents, nbWomen, nbBachelor).validateWoman
    ensures GetCriteria(womenPerTeam, nbStudents, nbWomen', nbBachelor).validateWoman
  {
    JavaDivMonotone(nbWomen * 100, nbWomen' * 100, nbStudents);
  }

  /** The percentage is truncated: one woman in three students is 33 percent, which misses a
      target of 34 even though the exact ratio exceeds 33.3. */
  lemma TruncatedPercentage()
    ensures GetCriteria(33, 3, 1, 0).validateWoman
    ensures !GetCriteria(34, 3, 1, 0).validateWoman
    ensures !GetCriteria(0, 0, 0, 1).validateWoman && GetCriteria(0, 0, 0, 1).validateBachelor
  {
  }
}
