/** The student import of the student service: the row window that
    `extractNamesGenderBachelorAndGrades` reads, `createStudentFromData`, and the cell loop of
    `populateDatabaseFromCSV`.  Rows arrive already split into cells; the number parser is
    the partial function `parse`. */
module StudentImport {
  import opened Wrappers
  import opened JavaStrings
  import opened Entities

  type Row = seq<string>

  /** `hasNonEmptyValue(line, index)`: the cell exists and is not blank. */
  predicate HasNonEmptyValue(row: Row, index: nat) {
    index < |row| && !IsBlank(row[index])
  }

  /** A cell counts as filled exactly when it has a character above U+0020. */
  lemma HasNonEmptyValueIff(row: Row, index: nat)
    ensures HasNonEmptyValue(row, index)
            <==> index < |row| && exists c :: 0 <= c < |row[index]| && !IsTrimmed(row[index][c])
  {
    if index < |row| {
      BlankIff(row[index]);
    }
  }

  /** The three cases of the service's own tests. */
  lemma HasNonEmptyValueExamples()
    ensures !HasNonEmptyValue(["", "test", "example"], 0)
    ensures HasNonEmptyValue(["test", "example"], 0)
    ensures !HasNonEmptyValue(["test", "example"], 3)
  {
    assert ["test", "example"][0] == "test";
    TrimKeepsInner("test");
  }

  predicate Named(row: Row) {
    HasNonEmptyValue(row, 1)
  }

  /** The first row at or after `from` that has a name, or `|rows|`. */
  function FirstNamedFrom(rows: seq<Row>, from: nat): (k: nat)
    requires from <= |rows|
    ensures from <= k <= |rows|
    ensures k < |rows| ==> Named(rows[k])
    ensures forall j :: from <= j < k ==> !Named(rows[j])
    decreases |rows| - from
  {
    if from == |rows| || Named(rows[from]) then from else FirstNamedFrom(rows, from + 1)
  }

  /** The first row at or after `from` that has no name, or `|rows|`. */
  function FirstUnnamedFrom(rows: seq<Row>, from: nat): (k: nat)
    requires from <= |rows|
    ensures from <= k <= |rows|
    ensures k < |rows| ==> !Named(rows[k])
    ensures forall j :: from <= j < k ==> Named(rows[j])
    decreases |rows| - from
  {
    if from == |rows| || !Named(rows[from]) then from else FirstUnnamedFrom(rows, from + 1)
  }

  /** The first row in `[from, to)` with fewer than four cells, or `to`. */
  function FirstShortFrom(rows: seq<Row>, from: nat, upto: nat): (k: nat)
    requires from <= upto <= |rows|
    ensures from <= k <= upto
    ensures k < upto ==> |rows[k]| < 4
    ensures forall j :: from <= j < k ==> |rows[j]| >= 4
    decreases upto - from
  {
    if from == upto || |rows[from]| < 4 then from else FirstShortFrom(rows, from + 1, upto)
  }

  /** The four lists of the extraction. */
  datatype Extracted = Extracted(names: seq<string>, genders: seq<string>, bachelors: seq<string>, grades: seq<seq<string>>)

  /** The exception a named row with fewer than four cells raises: reading cell 2 of a
      two-cell row, or `copyOfRange(row, 4, 3)` on a three-cell row. */
  function ShortRowError(row: Row): Error {
    if |row| <= 2 then IndexOutOfBounds else IllegalArgument
  }

  /** The lists read from the rows `rows[s..s + n]`: cells 1, 2 and 3 and the cells from 4 on. */
  function Window(rows: seq<Row>, s: nat, n: nat): (x: Extracted)
    requires s + n <= |rows| && forall j :: s <= j < s + n ==> |rows[j]| >= 4
    ensures |x.names| == n && |x.genders| == n && |x.bachelors| == n && |x.grades| == n
  {
    Extracted(
      seq(n, j requires 0 <= j < n => rows[s + j][1]),
      seq(n, j requires 0 <= j < n => rows[s + j][2]),
      seq(n, j requires 0 <= j < n => rows[s + j][3]),
      seq(n, j requires 0 <= j < n => rows[s + j][4..]))
  }

  /** Entry j of the lists comes from row s + j: cells 1, 2 and 3, and the cells from 4 on. */
  lemma WindowCells(rows: seq<Row>, s: nat, n: nat)
    requires s + n <= |rows| && forall j :: s <= j < s + n ==> |rows[j]| >= 4
    ensures var x := Window(rows, s, n);
      forall j :: 0 <= j < n ==>
        x.names[j] == rows[s + j][1] && x.genders[j] == rows[s + j][2]
        && x.bachelors[j] == rows[s + j][3] && x.grades[j] == rows[s + j][4..]
  {
  }

  /** Two windows holding the same rows read the same lists. */
  lemma WindowEq(rows: seq<Row>, s: nat, rows': seq<Row>, s': nat, n: nat)
    requires s + n <= |rows| && forall j :: s <= j < s + n ==> |rows[j]| >= 4
    requires s' + n <= |rows'| && rows'[s'..s' + n] == rows[s..s + n]
    ensures forall j :: s' <= j < s' + n ==> |rows'[j]| >= 4
    ensures Window(rows', s', n) == Window(rows, s, n)
  {
    forall j | s' <= j < s' + n ensures |rows'[j]| >= 4 {
      SameRow(rows, s, rows', s', n, j - s');
    }
    var x, x' := Window(rows, s, n), Window(rows', s', n);
    WindowCells(rows, s, n);
    WindowCells(rows', s', n);
    forall j | 0 <= j < n
      ensures x.names[j] == x'.names[j] && x.genders[j] == x'.genders[j]
      ensures x.bachelors[j] == x'.bachelors[j] && x.grades[j] == x'.grades[j]
    {
      SameRow(rows, s, rows', s', n, j);
    }
  }

  lemma SameRow(rows: seq<Row>, s: nat, rows': seq<Row>, s': nat, n: nat, j: nat)
    requires s + n <= |rows| && s' + n <= |rows'| && rows'[s'..s' + n] == rows[s..s + n]
    requires j < n
    ensures rows'[s' + j] == rows[s + j]
  {
    assert rows'[s' + j] == rows'[s'..s' + n][j];
    assert rows[s + j] == rows[s..s + n][j];
  }

  /** What the extraction reads: the rows from the first named row up to the next unnamed
      row; a short row among them is an error. */
  function Extraction(rows: seq<Row>): (r: Result<Extracted>)
  {
    var s := FirstNamedFrom(rows, 0);
    var e := FirstUnnamedFrom(rows, s);
    var k := FirstShortFrom(rows, s, e);
    if k < e then Err(ShortRowError(rows[k])) else Ok(Window(rows, s, e - s))
  }

  /** `extractNamesGenderBachelorAndGrades`: the row loop with its `namesStarted` flag. */
  method ExtractNamesGenderBachelorAndGrades(rows: seq<Row>) returns (r: Result<Extracted>)
    ensures r == Extraction(rows)
  {
    var names: seq<string> := [];
    var genders: seq<string> := [];
    var bachelors: seq<string> := [];
    var grades: seq<seq<string>> := [];
    var namesStarted := false;
    ghost var s := FirstNamedFrom(rows, 0);
    ghost var e := FirstUnnamedFrom(rows, s);
    var i := 0;
    while i < |rows|
      invariant 0 <= i <= |rows|
      invariant !namesStarted ==> i <= s && names == []
      invariant namesStarted ==> s < i <= e && |names| == i - s
      invariant |genders| == |names| && |bachelors| == |names| && |grades| == |names|
      invariant FirstShortFrom(rows, s, e) >= s + |names|
      invariant Extracted(names, genders, bachelors, grades) == Window(rows, s, |names|)
    {
      var line := rows[i];
      var named := HasNonEmptyValue(line, 1);
      if !namesStarted && named {
        namesStarted := true;
      }
      if namesStarted && names != [] && !named {
        break;
      }
      if namesStarted && named {
        assert s <= i < e && i == s + |names|;
        ghost var before := Extracted(names, genders, bachelors, grades);
        if |line| <= 2 {
          return Err(IndexOutOfBounds);
        }
        names := names + [line[1]];
        genders := genders + [line[2]];
        bachelors := bachelors + [if |line| > 3 then line[3] else ""];
        if |line| < 4 {
          return Err(IllegalArgument);
        }
        grades := grades + [line[4..]];
        assert FirstShortFrom(rows, s, e) > i;
        WindowStep(rows, s, i, before);
      }
      i := i + 1;
    }
    assert |names| == e - s;
    return Ok(Extracted(names, genders, bachelors, grades));
  }

  /** One more full row adds its cells at the end of the four lists. */
  lemma WindowStep(rows: seq<Row>, s: nat, i: nat, x: Extracted)
    requires s <= i < |rows| && forall j :: s <= j <= i ==> |rows[j]| >= 4
    requires x == Window(rows, s, i - s)
    ensures Window(rows, s, i - s + 1)
            == Extracted(x.names + [rows[i][1]], x.genders + [rows[i][2]], x.bachelors + [rows[i][3]], x.grades + [rows[i][4..]])
  {
  }

  /** No rows, four empty lists. */
  lemma ExtractionOfNothing()
    ensures Extraction([]) == Ok(Extracted([], [], [], []))
  {
    assert Window([], 0, 0).names == [];
  }

  /** Extractions whose windows hold the same rows are equal. */
  lemma SameWindow(rows: seq<Row>, rows': seq<Row>)
    requires var s, s' := FirstNamedFrom(rows, 0), FirstNamedFrom(rows', 0);
      && FirstUnnamedFrom(rows, s) - s == FirstUnnamedFrom(rows', s') - s'
      && rows'[s'..FirstUnnamedFrom(rows', s')] == rows[s..FirstUnnamedFrom(rows, s)]
    ensures Extraction(rows') == Extraction(rows)
  {
    var s, s' := FirstNamedFrom(rows, 0), FirstNamedFrom(rows', 0);
    var e, e' := FirstUnnamedFrom(rows, s), FirstUnnamedFrom(rows', s');
    FirstShortSame(rows, s, rows', s', e - s, 0);
    var k := FirstShortFrom(rows, s, e);
    if k == e {
      SameFullWindow(rows, s, e, rows', s', e');
    } else {
      SameShortWindow(rows, s, e, rows', s', e', k);
    }
  }

  lemma SameShortWindow(rows: seq<Row>, s: nat, e: nat, rows': seq<Row>, s': nat, e': nat, k: nat)
    requires s == FirstNamedFrom(rows, 0) && e == FirstUnnamedFrom(rows, s)
    requires s' == FirstNamedFrom(rows', 0) && e' == FirstUnnamedFrom(rows', s')
    requires e - s == e' - s' && rows'[s'..e'] == rows[s..e]
    requires k == FirstShortFrom(rows, s, e) < e && FirstShortFrom(rows', s', e') == s' + (k - s)
    ensures Extraction(rows') == Extraction(rows)
  {
    SameRow(rows, s, rows', s', e - s, k - s);
    ExtractionShort(rows, s, e, k);
    ExtractionShort(rows', s', e', s' + (k - s));
  }

  /** A short row in the window makes the extraction fail with that row's error. */
  lemma ExtractionShort(rows: seq<Row>, s: nat, e: nat, k: nat)
    requires s == FirstNamedFrom(rows, 0) && e == FirstUnnamedFrom(rows, s)
    requires k == FirstShortFrom(rows, s, e) < e
    ensures Extraction(rows) == Err(ShortRowError(rows[k]))
  {
  }

  lemma SameFullWindow(rows: seq<Row>, s: nat, e: nat, rows': seq<Row>, s': nat, e': nat)
    requires s == FirstNamedFrom(rows, 0) && e == FirstUnnamedFrom(rows, s)
    requires s' == FirstNamedFrom(rows', 0) && e' == FirstUnnamedFrom(rows', s')
    requires e - s == e' - s' && rows'[s'..e'] == rows[s..e]
    requires FirstShortFrom(rows, s, e) == e && FirstShortFrom(rows', s', e') == e'
    ensures Extraction(rows') == Extraction(rows)
  {
    WindowEq(rows, s, rows', s', e - s);
    ExtractionFull(rows, s, e);
    ExtractionFull(rows', s', e');
  }

  /** A window without a short row is read whole. */
  lemma ExtractionFull(rows: seq<Row>, s: nat, e: nat)
    requires s == FirstNamedFrom(rows, 0) && e == FirstUnnamedFrom(rows, s)
    requires FirstShortFrom(rows, s, e) == e
    ensures Extraction(rows) == Ok(Window(rows, s, e - s))
  {
  }

  /** Windows holding the same rows stop at the same offset. */
  lemma {:induction false} FirstShortSame(rows: seq<Row>, s: nat, rows': seq<Row>, s': nat, n: nat, m: nat)
    requires m <= n && s + n <= |rows| && s' + n <= |rows'|
    requires rows'[s'..s' + n] == rows[s..s + n]
    ensures FirstShortFrom(rows', s' + m, s' + n) - s' == FirstShortFrom(rows, s + m, s + n) - s
    decreases n - m
  {
    if m < n {
      SameRow(rows, s, rows', s', n, m);
      FirstShortSame(rows, s, rows', s', n, m + 1);
    }
  }

  /** Rows without a name before the first named row are skipped. */
  lemma LeadingUnnamedRowsSkipped(lead: seq<Row>, rows: seq<Row>)
    requires forall j :: 0 <= j < |lead| ==> !Named(lead[j])
    ensures Extraction(lead + rows) == Extraction(rows)
  {
    var all := lead + rows;
    var s := FirstNamedFrom(rows, 0);
    var e := FirstUnnamedFrom(rows, s);
    FirstNamedShift(lead, rows, 0);
    assert FirstNamedFrom(all, 0) == |lead| + s;
    FirstUnnamedShift(lead, rows, s);
    assert FirstUnnamedFrom(all, |lead| + s) == |lead| + e;
    SliceShift(lead, rows, s, e);
    SameWindow(rows, all);
  }

  lemma SliceShift(lead: seq<Row>, rows: seq<Row>, s: nat, e: nat)
    requires s <= e <= |rows|
    ensures (lead + rows)[|lead| + s..|lead| + e] == rows[s..e]
  {
  }

  lemma {:induction false} FirstNamedShift(lead: seq<Row>, rows: seq<Row>, from: nat)
    requires from <= |lead| + |rows|
    requires forall j :: from <= j < |lead| ==> !Named(lead[j])
    ensures from <= |lead| ==> FirstNamedFrom(lead + rows, from) == |lead| + FirstNamedFrom(rows, 0)
    ensures from >= |lead| ==> FirstNamedFrom(lead + rows, from) == |lead| + FirstNamedFrom(rows, from - |lead|)
    decreases |lead| + |rows| - from
  {
    var all := lead + rows;
    if from < |lead| {
      assert all[from] == lead[from];
      FirstNamedShift(lead, rows, from + 1);
    } else if from < |all| {
      assert all[from] == rows[from - |lead|];
      FirstNamedShift(lead, rows, from + 1);
    }
  }

  lemma {:induction false} FirstUnnamedShift(lead: seq<Row>, rows: seq<Row>, from: nat)
    requires from <= |rows|
    ensures FirstUnnamedFrom(lead + rows, |lead| + from) == |lead| + FirstUnnamedFrom(rows, from)
    decreases |rows| - from
  {
    var all := lead + rows;
    if from < |rows| {
      assert all[|lead| + from] == rows[from];
      FirstUnnamedShift(lead, rows, from + 1);
    }
  }

  /** Everything after the row that ends the window is ignored. */
  lemma RowsAfterWindowIgnored(rows: seq<Row>, more: seq<Row>)
    requires FirstUnnamedFrom(rows, FirstNamedFrom(rows, 0)) < |rows|
    ensures Extraction(rows + more) == Extraction(rows)
  {
    var all := rows + more;
    var s := FirstNamedFrom(rows, 0);
    var e := FirstUnnamedFrom(rows, s);
    PrefixNamed(rows, more, 0, s);
    PrefixUnnamed(rows, more, s, e);
    SliceOfPrefix(rows, more, s, e);
    SameWindow(rows, all);
  }

  lemma SliceOfPrefix(rows: seq<Row>, more: seq<Row>, s: nat, e: nat)
    requires s <= e <= |rows|
    ensures (rows + more)[s..e] == rows[s..e]
  {
  }

  lemma {:induction false} PrefixNamed(rows: seq<Row>, more: seq<Row>, from: nat, k: nat)
    requires from <= |rows| && k == FirstNamedFrom(rows, from) && k < |rows|
    ensures FirstNamedFrom(rows + more, from) == k
    decreases |rows| - from
  {
    assert (rows + more)[from] == rows[from];
    if from < k {
      PrefixNamed(rows, more, from + 1, k);
    }
  }

  lemma {:induction false} PrefixUnnamed(rows: seq<Row>, more: seq<Row>, from: nat, k: nat)
    requires from <= |rows| && k == FirstUnnamedFrom(rows, from) && k < |rows|
    ensures FirstUnnamedFrom(rows + more, from) == k
    decreases |rows| - from
  {
    assert (rows + more)[from] == rows[from];
    if from < k {
      PrefixUnnamed(rows, more, from + 1, k);
    }
  }

  /** The service's example: two complete rows give their names, genders, bachelor cells and
      grade cells. */
  lemma ExtractionExample()
    ensures Extraction([["1", "John Doe", "M", "B", "15", "14", "13"], ["2", "Jane Doe", "F", "B", "12", "13", "14"]])
            == Ok(Extracted(["John Doe", "Jane Doe"], ["M", "F"], ["B", "B"], [["15", "14", "13"], ["12", "13", "14"]]))
  {
    TrimKeepsInner("John Doe");
    TrimKeepsInner("Jane Doe");
    var rows := [["1", "John Doe", "M", "B", "15", "14", "13"], ["2", "Jane Doe", "F", "B", "12", "13", "14"]];
    assert Named(rows[0]) && Named(rows[1]);
    assert FirstNamedFrom(rows, 0) == 0;
    assert FirstUnnamedFrom(rows, 0) == 2;
    assert FirstShortFrom(rows, 0, 2) == 2;
    var w := Window(rows, 0, 2);
    WindowCells(rows, 0, 2);
    assert w.names == ["John Doe", "Jane Doe"];
    assert w.genders == ["M", "F"];
    assert w.bachelors == ["B", "B"];
    assert w.grades == [["15", "14", "13"], ["12", "13", "14"]];
  }

  /** Blank cells are kept as empty strings. */
  lemma ExtractionKeepsBlankCells()
    ensures Extraction([["1", "John Doe", "M", "", "15"], ["2", "Jane Doe", "", "B", "12"]])
            == Ok(Extracted(["John Doe", "Jane Doe"], ["M", ""], ["", "B"], [["15"], ["12"]]))
  {
    TrimKeepsInner("John Doe");
    TrimKeepsInner("Jane Doe");
    var rows := [["1", "John Doe", "M", "", "15"], ["2", "Jane Doe", "", "B", "12"]];
    assert Named(rows[0]) && Named(rows[1]);
    assert FirstNamedFrom(rows, 0) == 0;
    assert FirstUnnamedFrom(rows, 0) == 2;
    assert FirstShortFrom(rows, 0, 2) == 2;
    var w := Window(rows, 0, 2);
    WindowCells(rows, 0, 2);
    assert w.names == ["John Doe", "Jane Doe"];
    assert w.genders == ["M", ""];
    assert w.bachelors == ["", "B"];
    assert w.grades == [["15"], ["12"]];
  }

  /** A named row with two or three cells stops the extraction with an error. */
  lemma ShortRowExamples()
    ensures Extraction([["1", "Ann"]]) == Err(IndexOutOfBounds)
    ensures Extraction([["1", "Ann", "F"]]) == Err(IllegalArgument)
  {
    TrimKeepsInner("Ann");
    assert Named(["1", "Ann"]) && Named(["1", "Ann", "F"]);
    assert FirstUnnamedFrom([["1", "Ann"]], 0) == 1;
    assert FirstUnnamedFrom([["1", "Ann", "F"]], 0) == 1;
  }

  // ------------------------------------------------------------------ createStudentFromData

  const EmailDomain := "@reseau.eseo.fr"

  /** The address built from a name: the second word, a dot, then the first word. */
  function Email(parts: seq<string>): string
    requires |parts| >= 2
  {
    ToLower(parts[1]) + "." + ToLower(parts[0]) + EmailDomain
  }

  /** `createStudentFromData`, the project lookup aside. */
  function CreateStudentFromData(name: Option<string>, gender: Option<string>, bachelor: Option<string>,
                                 projectId: int): (r: Result<Student>)
  {
    if name.None? || IsBlank(name.value) then Err(IllegalArgument)
    else if gender.None? || IsBlank(gender.value) then Err(IllegalArgument)
    else if bachelor.None? then Err(IllegalArgument)
    else
      var parts := Split(name.value);
      if |parts| < 2 then Err(IndexOutOfBounds)
      else
        Ok(Student(None, name.value, if gender.value == "M" then Man else Woman, bachelor.value != "",
                   Email(parts), "privateKey", projectId))
  }

  /** A missing or blank name or gender, or a missing bachelor cell, is an IllegalArgument;
      a name of one word is an IndexOutOfBounds; otherwise the student has the name as
      given, is a man exactly for "M", is a bachelor exactly for a non-empty cell, and has
      the address built from the first two words. */
  lemma CreateStudentRule(name: Option<string>, gender: Option<string>, bachelor: Option<string>, projectId: int)
    ensures var r := CreateStudentFromData(name, gender, bachelor, projectId);
      && ((name.None? || IsBlank(name.value) || gender.None? || IsBlank(gender.value) || bachelor.None?)
          ==> r == Err(IllegalArgument))
      && (r.Ok? ==>
            && name.Some? && gender.Some? && bachelor.Some?
            && r.value.name == name.value
            && (r.value.gender == Man <==> gender.value == "M")
            && (r.value.bachelor <==> bachelor.value != "")
            && |Split(name.value)| >= 2
            && r.value.email == Email(Split(name.value))
            && r.value.id.None? && r.value.privateKey == "privateKey" && r.value.projectId == projectId)
      && (r.Err? && r.error != IllegalArgument ==> r.error == IndexOutOfBounds && |Split(name.value)| < 2)
      && (name.Some? && !IsBlank(name.value) && gender.Some? && !IsBlank(gender.value) && bachelor.Some?
          ==> (r.Ok? <==> |Split(name.value)| >= 2))
  {
  }

  /** Valid data always makes a student when the name has two words. */
  lemma CreateStudentSucceeds(first: string, last: string, gender: string, bachelor: string, projectId: int)
    requires first != [] && last != [] && ' ' !in first && ' ' !in last && !IsTrimmed(first[0])
    requires !IsBlank(gender)
    ensures var r := CreateStudentFromData(Some(first + " " + last), Some(gender), Some(bachelor), projectId);
      r.Ok? && r.value.email == ToLower(last) + "." + ToLower(first) + EmailDomain
  {
    SplitTwoWords(first, last);
    assert (first + " " + last)[0] == first[0];
    NotBlankIfFirst(first + " " + last);
  }

  /** The address is last name first: "John Doe" gets "doe.john@reseau.eseo.fr", not
      "john.doe@reseau.eseo.fr". */
  lemma EmailOrder()
    ensures var r := CreateStudentFromData(Some("John Doe"), Some("M"), Some("B"), 1);
      r.Ok? && r.value.email == "doe.john@reseau.eseo.fr" && r.value.email != "john.doe@reseau.eseo.fr"
  {
    NotBlankIfFirst("M");
    assert "John" + " " + "Doe" == "John Doe";
    CreateStudentSucceeds("John", "Doe", "M", "B", 1);
    JohnDoeAddress();
  }

  lemma JohnDoeAddress()
    ensures ToLower("Doe") + "." + ToLower("John") + EmailDomain == "doe.john@reseau.eseo.fr"
    ensures "doe.john@reseau.eseo.fr" != "john.doe@reseau.eseo.fr"
  {
    LowerWord("Doe", "doe");
    LowerWord("John", "john");
    assert "doe.john@reseau.eseo.fr"[0] != "john.doe@reseau.eseo.fr"[0];
  }

  lemma LowerWord(w: string, lower: string)
    requires |w| == |lower| && forall i :: 0 <= i < |w| ==> ToLowerChar(w[i]) == lower[i]
    ensures ToLower(w) == lower
  {
    ToLowerChars(w);
  }

  /** A one-word name has no second part to build the address from. */
  lemma OneWordName()
    ensures CreateStudentFromData(Some("Plato"), Some("M"), Some(""), 1) == Err(IndexOutOfBounds)
  {
    NotBlankIfFirst("Plato");
    NotBlankIfFirst("M");
    assert Split("Plato") == ["Plato"];
  }

  /** Only the exact string "M" makes a man, and any non-empty bachelor cell (even a blank
      one) makes a bachelor. */
  lemma GenderAndBachelorRule()
    ensures var r := CreateStudentFromData(Some("John Doe"), Some("m"), Some(" "), 1);
      r.Ok? && r.value.gender == Woman && r.value.bachelor
  {
    NotBlankIfFirst("m");
    assert "John" + " " + "Doe" == "John Doe";
    CreateStudentSucceeds("John", "Doe", "m", " ", 1);
  }

  // ------------------------------------------------------------------ populateDatabaseFromCSV

  /** What cell `j` of a student's grade cells produces: nothing when blank or unparsable;
      a parsed value needs the grade type at index `j`. */
  function ImportCell(j: nat, cell: string, types: seq<GradeType>, parse: string -> Option<real>): Result<Option<(GradeType, real)>> {
    var v := Trim(cell);
    if v == [] then Ok(None)
    else match parse(v)
      case None => Ok(None)
      case Some(x) => if j < |types| then Ok(Some((types[j], x))) else Err(IndexOutOfBounds)
  }

  /** The import cell rule: a grade is created exactly when the trimmed cell is non-empty
      and parses, an unparsable cell is skipped, and a parsed cell beyond the grade types
      is an error. */
  lemma ImportCellRule(j: nat, cell: string, types: seq<GradeType>, parse: string -> Option<real>)
    ensures var r := ImportCell(j, cell, types, parse);
      && (r.Ok? && r.value.Some? <==> !IsBlank(cell) && parse(Trim(cell)).Some? && j < |types|)
      && (r.Ok? && r.value.Some? ==> r.value.value == (types[j], parse(Trim(cell)).value))
      && (r.Err? <==> !IsBlank(cell) && parse(Trim(cell)).Some? && j >= |types|)
      && (r.Err? ==> r.error == IndexOutOfBounds)
  {
  }

  datatype CellsOutcome = CellsOutcome(values: seq<(GradeType, real)>, err: Option<Error>)

  /** The grades of one student's cells, left to right, up to the first error. */
  function ImportCells(cells: seq<string>, types: seq<GradeType>, parse: string -> Option<real>): CellsOutcome {
    if cells == [] then CellsOutcome([], None)
    else
      var prev := ImportCells(cells[..|cells| - 1], types, parse);
      if prev.err.Some? then prev
      else match ImportCell(|cells| - 1, cells[|cells| - 1], types, parse)
        case Err(e) => CellsOutcome(prev.values, Some(e))
        case Ok(None) => prev
        case Ok(Some(v)) => CellsOutcome(prev.values + [v], None)
  }

  /** When a student's cells raise no error, every non-blank cell that parses has produced
      its grade, bound to the grade type at the cell's index. */
  lemma {:induction false} ImportCellsCreated(cells: seq<string>, types: seq<GradeType>, parse: string -> Option<real>)
    requires ImportCells(cells, types, parse).err.None?
    ensures forall j :: 0 <= j < |cells| && !IsBlank(cells[j]) && parse(Trim(cells[j])).Some? ==>
              j < |types| && (types[j], parse(Trim(cells[j])).value) in ImportCells(cells, types, parse).values
  {
    if cells != [] {
      var init := cells[..|cells| - 1];
      var prev := ImportCells(init, types, parse);
      assert prev.err.None?;
      ImportCellsCreated(init, types, parse);
      var cur := ImportCells(cells, types, parse);
      assert forall j :: 0 <= j < |init| ==> init[j] == cells[j];
      assert forall v :: v in prev.values ==> v in cur.values;
    }
  }

  /** When a student's cells raise no error, its grades are exactly those of the cells that
      parse, in cell order, each bound to the grade type at its cell's index. */
  lemma {:induction false} ImportCellsExactly(cells: seq<string>, types: seq<GradeType>, parse: string -> Option<real>)
    requires ImportCells(cells, types, parse).err.None?
    ensures var idx, vs := ParsedIndices(cells, parse), ImportCells(cells, types, parse).values;
      && |vs| == |idx|
      && forall k :: 0 <= k < |idx| ==>
           idx[k] < |types| && Parses(cells[idx[k]], parse)
           && vs[k] == (types[idx[k]], parse(Trim(cells[idx[k]])).value)
  {
    if cells != [] {
      var n := |cells| - 1;
      var init := cells[..n];
      var prev := ImportCells(init, types, parse);
      assert prev.err.None?;
      ImportCellsExactly(init, types, parse);
      var idx0, idx := ParsedIndices(init, parse), ParsedIndices(cells, parse);
      var vs := ImportCells(cells, types, parse).values;
      ImportCellRule(n, cells[n], types, parse);
      var last := ImportCell(n, cells[n], types, parse);
      assert last.Ok?;
      assert |idx| == |vs| && vs[..|prev.values|] == prev.values && idx[..|idx0|] == idx0 by {
        if last.value.Some? {
          assert idx == idx0 + [n] && vs == prev.values + [last.value.value];
        } else {
          assert idx == idx0 && vs == prev.values;
        }
      }
      forall k | 0 <= k < |idx|
        ensures idx[k] < |types| && Parses(cells[idx[k]], parse)
                && vs[k] == (types[idx[k]], parse(Trim(cells[idx[k]])).value)
      {
        if k < |idx0| {
          assert idx[k] == idx0[k] && vs[k] == prev.values[k];
          assert cells[idx0[k]] == init[idx0[k]];
        } else {
          assert idx[k] == n && last.value.Some? && vs[k] == last.value.value;
        }
      }
    }
  }

  /** A grade of the import: the index of its student among the created ones, its type and
      its value. */
  datatype ImportedGrade = ImportedGrade(student: nat, gradeType: GradeType, value: real)

  function Tag(student: nat, vs: seq<(GradeType, real)>): (r: seq<ImportedGrade>)
    ensures |r| == |vs|
    ensures forall k :: 0 <= k < |vs| ==> r[k] == ImportedGrade(student, vs[k].0, vs[k].1)
  {
    seq(|vs|, k requires 0 <= k < |vs| => ImportedGrade(student, vs[k].0, vs[k].1))
  }

  datatype ImportOutcome = ImportOutcome(students: seq<Student>, grades: seq<ImportedGrade>, err: Option<Error>)

  predicate WellFormed(e: Extracted) {
    |e.genders| == |e.names| && |e.bachelors| == |e.names| && |e.grades| == |e.names|
  }

  /** What `createStudentFromData` gives for each of the first n extracted rows. */
  function Creations(e: Extracted, projectId: int, n: nat): (r: seq<Result<Student>>)
    requires WellFormed(e) && n <= |e.names|
    ensures |r| == n
  {
    if n == 0 then [] else Creations(e, projectId, n - 1) + [Creation(e, n - 1, projectId)]
  }

  function Creation(e: Extracted, i: nat, projectId: int): Result<Student>
    requires WellFormed(e) && i < |e.names|
  {
    CreateStudentFromData(Some(e.names[i]), Some(e.genders[i]), Some(e.bachelors[i]), projectId)
  }

  lemma {:induction false} CreationAt(e: Extracted, projectId: int, n: nat, i: nat)
    requires WellFormed(e) && i < n <= |e.names|
    ensures Creations(e, projectId, n)[i] == Creation(e, i, projectId)
  {
    if i < n - 1 {
      CreationAt(e, projectId, n - 1, i);
    }
  }

  /** What the cell loop gives for the grade cells of each of the first n extracted rows. */
  function CellOutcomes(e: Extracted, types: seq<GradeType>, parse: string -> Option<real>, n: nat): (r: seq<CellsOutcome>)
    requires WellFormed(e) && n <= |e.names|
    ensures |r| == n
  {
    if n == 0 then [] else CellOutcomes(e, types, parse, n - 1) + [CellOutcome(e, n - 1, types, parse)]
  }

  function CellOutcome(e: Extracted, i: nat, types: seq<GradeType>, parse: string -> Option<real>): CellsOutcome
    requires WellFormed(e) && i < |e.names|
  {
    ImportCells(e.grades[i], types, parse)
  }

  lemma {:induction false} CellOutcomeAt(e: Extracted, types: seq<GradeType>, parse: string -> Option<real>, n: nat, i: nat)
    requires WellFormed(e) && i < n <= |e.names|
    ensures CellOutcomes(e, types, parse, n)[i] == CellOutcome(e, i, types, parse)
  {
    if i < n - 1 {
      CellOutcomeAt(e, types, parse, n - 1, i);
    }
  }

  /** The import of the first `count` students, up to the first error, from the outcome of
      each student's creation and of its cell loop. */
  function ImportStudents(created: seq<Result<Student>>, cells: seq<CellsOutcome>, count: nat): (o: ImportOutcome)
    requires |cells| == |created| && count <= |created|
    ensures |o.students| <= count
  {
    if count == 0 then ImportOutcome([], [], None)
    else
      var prev := ImportStudents(created, cells, count - 1);
      if prev.err.Some? then prev else Step(prev, created[count - 1], cells[count - 1])
  }

  /** One more student after `prev`: a failed creation stops the import; a created student
      is saved with its grades, which refer to it by its index. */
  function Step(prev: ImportOutcome, created: Result<Student>, c: CellsOutcome): (o: ImportOutcome)
    ensures |o.students| <= |prev.students| + 1
  {
    match created
    case Err(x) => ImportOutcome(prev.students, prev.grades, Some(x))
    case Ok(s) => ImportOutcome(prev.students + [s], prev.grades + Tag(|prev.students|, c.values), c.err)
  }

  /** Every grade of the import refers to one of the students created before it or with it. */
  lemma {:induction false} ImportedGradesReferToStudents(created: seq<Result<Student>>, cells: seq<CellsOutcome>, count: nat)
    requires |cells| == |created| && count <= |created|
    ensures var o := ImportStudents(created, cells, count);
      forall g :: g in o.grades ==> g.student < |o.students|
  {
    if count > 0 {
      ImportedGradesReferToStudents(created, cells, count - 1);
      var prev := ImportStudents(created, cells, count - 1);
      if prev.err.None? && created[count - 1].Ok? {
        var o := Step(prev, created[count - 1], cells[count - 1]);
        var tagged := Tag(|prev.students|, cells[count - 1].values);
        forall g | g in o.grades ensures g.student < |o.students| {
          if g !in prev.grades {
            assert g in tagged;
          }
        }
      }
    }
  }

  /** A row stops the import: its student cannot be created, or its cell loop fails. */
  predicate RowFails(created: Result<Student>, c: CellsOutcome) {
    created.Err? || c.err.Some?
  }

  /** The exception a failing row raises. */
  function RowError(created: Result<Student>, c: CellsOutcome): Error
    requires RowFails(created, c)
  {
    if created.Err? then created.error else c.err.value
  }

  /** The grades saved for the first `m` students: each student's grades, tagged with its
      index, one student after the other. */
  function Tagged(cells: seq<CellsOutcome>, m: nat): seq<ImportedGrade>
    requires m <= |cells|
  {
    if m == 0 then [] else Tagged(cells, m - 1) + Tag(m - 1, cells[m - 1].values)
  }

  /** What the import saves: the students created, from the first row on, each followed by
      its grades.  It raises nothing exactly when no row fails, and then every row has
      given its student. */
  lemma {:induction false} ImportedStudents(created: seq<Result<Student>>, cells: seq<CellsOutcome>, n: nat)
    requires |cells| == |created| && n <= |created|
    ensures var o := ImportStudents(created, cells, n);
      && |o.students| <= n
      && (forall i :: 0 <= i < |o.students| ==> created[i].Ok? && o.students[i] == created[i].value)
      && o.grades == Tagged(cells, |o.students|)
      && (o.err.None? <==> forall i :: 0 <= i < n ==> !RowFails(created[i], cells[i]))
      && (o.err.None? ==> |o.students| == n)
  {
    if n > 0 {
      ImportedStudents(created, cells, n - 1);
      var prev := ImportStudents(created, cells, n - 1);
      if prev.err.None? && created[n - 1].Ok? {
        var o := ImportStudents(created, cells, n);
        assert o.students == prev.students + [created[n - 1].value];
      }
    }
  }

  /** The first failing row raises its error; its student is kept when it was created, and
      no later row is looked at. */
  lemma ImportFirstFailure(created: seq<Result<Student>>, cells: seq<CellsOutcome>, n: nat, k: nat)
    requires |cells| == |created| && k < n <= |created|
    requires forall i :: 0 <= i < k ==> !RowFails(created[i], cells[i])
    requires RowFails(created[k], cells[k])
    ensures var o := ImportStudents(created, cells, n);
      && o.err == Some(RowError(created[k], cells[k]))
      && |o.students| == (if created[k].Ok? then k + 1 else k)
  {
    ImportedStudents(created, cells, k);
    StudentsStopAt(created, cells, k + 1, n);
  }

  /** `populateDatabaseFromCSV` on a file whose grade types are `types`. */
  function Populate(fileEmpty: bool, rows: seq<Row>, types: seq<GradeType>, parse: string -> Option<real>,
                    projectId: int): ImportOutcome
  {
    if fileEmpty then ImportOutcome([], [], Some(EmptyResource))
    else match Extraction(rows)
      case Err(x) => ImportOutcome([], [], Some(x))
      case Ok(e) => ImportStudents(Creations(e, projectId, |e.names|), CellOutcomes(e, types, parse, |e.names|), |e.names|)
  }

  /** The cell loop of one student. */
  method ImportGrades(cells: seq<string>, types: seq<GradeType>, parse: string -> Option<real>)
    returns (values: seq<(GradeType, real)>, err: Option<Error>)
    ensures CellsOutcome(values, err) == ImportCells(cells, types, parse)
  {
    values := [];
    var j := 0;
    while j < |cells|
      invariant 0 <= j <= |cells|
      invariant ImportCells(cells[..j], types, parse) == CellsOutcome(values, None)
    {
      assert cells[..j + 1][..j] == cells[..j];
      if !IsBlank(cells[j]) {
        var parsed := parse(Trim(cells[j]));
        if parsed.Some? {
          if j >= |types| {
            CellsStopAt(cells, j, types, parse);
            return values, Some(IndexOutOfBounds);
          }
          values := values + [(types[j], parsed.value)];
        }
      }
      j := j + 1;
    }
    assert cells[..j] == cells;
    return values, None;
  }

  lemma {:induction false} CellsErrorSticks(cells: seq<string>, more: seq<string>, types: seq<GradeType>,
                                            parse: string -> Option<real>)
    requires ImportCells(cells, types, parse).err.Some?
    ensures ImportCells(cells + more, types, parse) == ImportCells(cells, types, parse)
    decreases |more|
  {
    if more != [] {
      var init := more[..|more| - 1];
      assert (cells + more)[..|cells + more| - 1] == cells + init;
      CellsErrorSticks(cells, init, types, parse);
    } else {
      assert cells + more == cells;
    }
  }

  lemma CellsStopAt(cells: seq<string>, j: int, types: seq<GradeType>, parse: string -> Option<real>)
    requires 0 <= j < |cells|
    requires ImportCells(cells[..j + 1], types, parse).err.Some?
    ensures ImportCells(cells, types, parse) == ImportCells(cells[..j + 1], types, parse)
  {
    CellsErrorSticks(cells[..j + 1], cells[j + 1..], types, parse);
    assert cells[..j + 1] + cells[j + 1..] == cells;
  }

  /** `populateDatabaseFromCSV`: the empty-file check, the extraction, then per student its
      creation and its grade cells.  What is saved before an error stays saved. */
  method PopulateDatabaseFromCsv(fileEmpty: bool, rows: seq<Row>, types: seq<GradeType>,
                                 parse: string -> Option<real>, projectId: int)
    returns (students: seq<Student>, grades: seq<ImportedGrade>, err: Option<Error>)
    ensures ImportOutcome(students, grades, err) == Populate(fileEmpty, rows, types, parse, projectId)
  {
    if fileEmpty {
      return [], [], Some(EmptyResource);
    }
    var extracted := ExtractNamesGenderBachelorAndGrades(rows);
    if extracted.Err? {
      return [], [], Some(extracted.error);
    }
    students, grades, err := ImportExtracted(extracted.value, types, parse, projectId);
  }

  /** The student loop of `populateDatabaseFromCSV`. */
  method ImportExtracted(e: Extracted, types: seq<GradeType>, parse: string -> Option<real>, projectId: int)
    returns (students: seq<Student>, grades: seq<ImportedGrade>, err: Option<Error>)
    requires WellFormed(e)
    ensures ImportOutcome(students, grades, err)
            == ImportStudents(Creations(e, projectId, |e.names|), CellOutcomes(e, types, parse, |e.names|), |e.names|)
  {
    ghost var all, outs := Creations(e, projectId, |e.names|), CellOutcomes(e, types, parse, |e.names|);
    students, grades := [], [];
    var i := 0;
    while i < |e.names|
      invariant 0 <= i <= |e.names|
      invariant ImportStudents(all, outs, i) == ImportOutcome(students, grades, None)
    {
      var o := ImportRow(e, i, types, parse, projectId, students, grades);
      if o.err.Some? {
        StudentsStopAt(all, outs, i + 1, |e.names|);
        return o.students, o.grades, o.err;
      }
      students, grades := o.students, o.grades;
      i := i + 1;
    }
    return students, grades, None;
  }

  /** Row i of the student loop: the student's creation, then, when it succeeds, its
      saving and the cell loop over its grades. */
  method ImportRow(e: Extracted, i: nat, types: seq<GradeType>, parse: string -> Option<real>, projectId: int,
                   students: seq<Student>, grades: seq<ImportedGrade>)
    returns (o: ImportOutcome)
    requires WellFormed(e) && i < |e.names|
    ensures o == Step(ImportOutcome(students, grades, None), Creations(e, projectId, |e.names|)[i],
                      CellOutcomes(e, types, parse, |e.names|)[i])
  {
    CreationAt(e, projectId, |e.names|, i);
    CellOutcomeAt(e, types, parse, |e.names|, i);
    var created := CreateStudentFromData(Some(e.names[i]), Some(e.genders[i]), Some(e.bachelors[i]), projectId);
    if created.Err? {
      return ImportOutcome(students, grades, Some(created.error));
    }
    var values, cellErr := ImportGrades(e.grades[i], types, parse);
    return ImportOutcome(students + [created.value], grades + Tag(|students|, values), cellErr);
  }

  lemma {:induction false} StudentsStopAt(created: seq<Result<Student>>, cells: seq<CellsOutcome>, count: nat, total: nat)
    requires |cells| == |created| && count <= total <= |created|
    requires ImportStudents(created, cells, count).err.Some?
    ensures ImportStudents(created, cells, total) == ImportStudents(created, cells, count)
    decreases total - count
  {
    if count < total {
      StudentsStopAt(created, cells, count, total - 1);
    }
  }

  /** An empty upload is rejected before anything is read or created. */
  lemma EmptyFileRejected(rows: seq<Row>, types: seq<GradeType>, parse: string -> Option<real>, projectId: int)
    ensures Populate(true, rows, types, parse, projectId) == ImportOutcome([], [], Some(EmptyResource))
  {
  }

  /** Unlike `createGradesFromGradeTypesAndValues`, the import skips an unparsable first cell. */
  lemma UnparsableFirstCellSkipped(cell: string, types: seq<GradeType>, parse: string -> Option<real>)
    requires !IsBlank(cell) && parse(Trim(cell)).None?
    ensures ImportCells([cell], types, parse) == CellsOutcome([], None)
  {
    assert [cell][..0] == [];
  }
}
