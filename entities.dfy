/** The entity shapes that the modelled services read and build.  Only the fields the
    services touch are kept; JPA relations are represented by the id of the related row.
    Nullable columns are present values here, except the bonus flags, which are options. */
module Entities {
  import opened Wrappers

  datatype Gender = Man | Woman

  /** A grade type: a named, weighted column of grades. */
  datatype GradeType = GradeType(id: int, name: string, factor: real, forGroup: bool, imported: bool)

  /** The validation constraint on `GradeType.factor`: it is never negative. */
  predicate ValidFactor(t: GradeType) {
    t.factor >= 0.0
  }

  /** A student.  `id` is `None` until the store assigns one on save. */
  datatype Student = Student(
    id: Option<int>,
    name: string,
    gender: Gender,
    bachelor: bool,
    email: string,
    privateKey: string,
    projectId: int)

  /** A grade: a value of some grade type for a student or for a team (ids of the rows). */
  datatype Grade = Grade(
    value: real,
    gradeType: GradeType,
    student: Option<int>,
    team: Option<int>,
    author: Option<int>,
    comment: Option<string>)

  /** A bonus or malus of a student for a sprint; `value` is numeric in this model.  The
      nullable `Boolean` columns are options. */
  datatype Bonus = Bonus(
    value: real,
    comment: Option<string>,
    limited: Option<bool>,
    confirmed: Option<bool>,
    sprint: int,
    student: int,
    author: Option<int>)
}
