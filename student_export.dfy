/** The student export of the student service: the factor and header rows, one row per
    student and the summary block, written one after the other to a CSV writer.  Grade
    lookups, the repository counts and the formatting of numbers are parameters. */
module StudentExport {
  import opened Wrappers
  import opened JavaStrings
  import opened Entities
  import GradeTypeNames

  /** The rows an OpenCSV writer has received, in order. */
  class CsvWriter {
    var rows: seq<seq<string>>

    constructor ()
      ensures rows == []
    {
      rows := [];
    }

    /** `writeNext`: one more row at the end. */
    method WriteNext(row: seq<string>)
      modifies this
      ensures rows == old(rows) + [row]
    {
      rows := rows + [row];
    }
  }

  /** A row of `width` empty cells, as `Arrays.fill(row, "")` leaves it. */
  function Blank(width: nat): (r: seq<string>)
    ensures |r| == width && forall c :: 0 <= c < width ==> r[c] == ""
  {
    seq(width, c requires 0 <= c < width => "")
  }

  /** `base` with `items` written over it from column `from` on; what falls beyond the row
      is dropped. */
  function Spread(base: seq<string>, from: nat, items: seq<string>): (r: seq<string>)
    ensures |r| == |base|
  {
    seq(|base|, c requires 0 <= c < |base| => if from <= c < from + |items| then items[c - from] else base[c])
  }

  /** Cell c holds item c - from inside the items' columns and the base's cell elsewhere. */
  lemma SpreadCells(base: seq<string>, from: nat, items: seq<string>)
    ensures var r := Spread(base, from, items);
      forall c :: 0 <= c < |base| ==> r[c] == if from <= c < from + |items| then items[c - from] else base[c]
  {
  }

  /** Spreading no items leaves the base as it is. */
  lemma SpreadNothing(base: seq<string>, from: nat)
    ensures Spread(base, from, []) == base
  {
    SpreadCells(base, from, []);
  }

  lemma SpreadStep(base: seq<string>, from: nat, items: seq<string>, x: string)
    requires from + |items| < |base|
    ensures Spread(base, from, items + [x]) == Spread(base, from, items)[from + |items| := x]
  {
    SpreadCells(base, from, items + [x]);
    SpreadCells(base, from, items);
    var a, b := Spread(base, from, items + [x]), Spread(base, from, items)[from + |items| := x];
    forall c | 0 <= c < |base| ensures a[c] == b[c] {
      if from <= c < from + |items| {
        assert (items + [x])[c - from] == items[c - from];
      }
    }
  }

  // ------------------------------------------------------------------ writeHeaders

  const AverageName: string := GradeTypeNames.DisplayName(GradeTypeNames.Average)

  /** The grade types that get a header column: those not named "average", in order. */
  function Exported(types: seq<GradeType>): (r: seq<GradeType>)
    ensures |r| <= |types|
  {
    if types == [] then []
    else
      var init := Exported(types[..|types| - 1]);
      if types[|types| - 1].name != AverageName then init + [types[|types| - 1]] else init
  }

  /** A type gets a header column exactly when it is one of the types and is not "average". */
  lemma {:induction false} ExportedIff(types: seq<GradeType>, t: GradeType)
    ensures t in Exported(types) <==> t in types && t.name != AverageName
  {
    if types != [] {
      var init := types[..|types| - 1];
      ExportedIff(init, t);
      assert types == init + [types[|types| - 1]];
    }
  }

  /** Only an "average" type is left out: all types are exported exactly when none is named
      "average". */
  lemma {:induction false} ExportedAll(types: seq<GradeType>)
    ensures |Exported(types)| == |types| <==> forall k :: 0 <= k < |types| ==> types[k].name != AverageName
  {
    if types != [] {
      var init := types[..|types| - 1];
      ExportedAll(init);
      assert forall k :: 0 <= k < |init| ==> init[k] == types[k];
    }
  }

  lemma {:induction false} ExportedPrefix(types: seq<GradeType>, i: nat)
    requires i <= |types|
    ensures |Exported(types[..i])| <= |Exported(types)|
    decreases |types| - i
  {
    if i < |types| {
      ExportedPrefix(types, i + 1);
      assert types[..i + 1][..i] == types[..i];
    } else {
      assert types[..i] == types;
    }
  }

  function Names(ts: seq<GradeType>): (r: seq<string>)
    ensures |r| == |ts| && forall k :: 0 <= k < |ts| ==> r[k] == ts[k].name
  {
    seq(|ts|, k requires 0 <= k < |ts| => ts[k].name)
  }

  function Factors(ts: seq<GradeType>, showFactor: real -> string): (r: seq<string>)
    ensures |r| == |ts| && forall k :: 0 <= k < |ts| ==> r[k] == showFactor(ts[k].factor)
  {
    seq(|ts|, k requires 0 <= k < |ts| => showFactor(ts[k].factor))
  }

  /** The header row before any name is written: width n + 4, "sexe M / F" in cell 2. */
  function HeaderBase(n: nat): seq<string> {
    Blank(n + 4)[2 := "sexe M / F"]
  }

  /** The header row: the exported names from column 5 on. */
  function HeaderRow(types: seq<GradeType>): seq<string> {
    Spread(HeaderBase(|types|), 5, Names(Exported(types)))
  }

  /** The factor row: the exported factors from column 5 on. */
  function FactorRow(types: seq<GradeType>, showFactor: real -> string): seq<string> {
    Spread(Blank(|types| + 4), 5, Factors(Exported(types), showFactor))
  }

  /** Every write of `writeHeaders` falls inside its arrays of width n + 4. */
  predicate HeaderFits(types: seq<GradeType>) {
    |Exported(types)| == 0 || 5 + |Exported(types)| <= |types| + 4
  }

  /** The header fits exactly when there is no type at all or one of them is "average". */
  lemma HeaderFitsIff(types: seq<GradeType>)
    ensures HeaderFits(types) <==> |types| == 0 || exists k :: 0 <= k < |types| && types[k].name == AverageName
  {
    ExportedAll(types);
    if |types| > 0 && (forall k :: 0 <= k < |types| ==> types[k].name != AverageName) {
      assert |Exported(types)| == |types|;
    }
  }

  /** The header row has width n + 4, "sexe M / F" in cell 2, and the k-th exported name in
      column 5 + k. */
  lemma HeaderLayout(types: seq<GradeType>)
    requires HeaderFits(types)
    ensures var h := HeaderRow(types);
      && |h| == |types| + 4 && h[2] == "sexe M / F"
      && forall k :: 0 <= k < |Exported(types)| ==> h[5 + k] == Exported(types)[k].name
  {
    SpreadCells(HeaderBase(|types|), 5, Names(Exported(types)));
  }

  lemma ExportedStep(types: seq<GradeType>, i: nat)
    requires i < |types|
    ensures Exported(types[..i + 1]) ==
      if types[i].name != AverageName then Exported(types[..i]) + [types[i]] else Exported(types[..i])
  {
    assert types[..i + 1][..i] == types[..i];
  }

  /** One more exported type writes its name and its factor in the next column. */
  lemma HeaderStep(types: seq<GradeType>, i: nat, showFactor: real -> string)
    requires i < |types| && types[i].name != AverageName
    requires 5 + |Exported(types[..i])| < |types| + 4
    ensures var ex, n := Exported(types[..i]), |types|;
      && Spread(HeaderBase(n), 5, Names(Exported(types[..i + 1])))
         == Spread(HeaderBase(n), 5, Names(ex))[5 + |ex| := types[i].name]
      && Spread(Blank(n + 4), 5, Factors(Exported(types[..i + 1]), showFactor))
         == Spread(Blank(n + 4), 5, Factors(ex, showFactor))[5 + |ex| := showFactor(types[i].factor)]
  {
    var ex, n := Exported(types[..i]), |types|;
    ExportedStep(types, i);
    NamesAppend(ex, types[i]);
    FactorsAppend(ex, types[i], showFactor);
    SpreadStep(HeaderBase(n), 5, Names(ex), types[i].name);
    SpreadStep(Blank(n + 4), 5, Factors(ex, showFactor), showFactor(types[i].factor));
  }

  lemma NamesAppend(ts: seq<GradeType>, t: GradeType)
    ensures Names(ts + [t]) == Names(ts) + [t.name]
  {
  }

  lemma FactorsAppend(ts: seq<GradeType>, t: GradeType, showFactor: real -> string)
    ensures Factors(ts + [t], showFactor) == Factors(ts, showFactor) + [showFactor(t.factor)]
  {
  }

  /** The two arrays of `writeHeaders`, created blank with "sexe M / F" in header cell 2;
      an index past the arrays raises. */
  method FillHeaders(types: seq<GradeType>, showFactor: real -> string)
    returns (err: Option<Error>, factorCells: seq<string>, headerCells: seq<string>)
    ensures HeaderFits(types) ==> err.None? && factorCells == FactorRow(types, showFactor) && headerCells == HeaderRow(types)
    ensures !HeaderFits(types) ==> err == Some(IndexOutOfBounds)
  {
    var n := |types|;
    var factors := new string[n + 4](_ => "");
    var headers := new string[n + 4](_ => "");
    assert factors[..] == Blank(n + 4);
    headers[2] := "sexe M / F";
    assert headers[..] == HeaderBase(n);
    err := FillColumns(types, showFactor, factors, headers);
    if err.Some? {
      return err, [], [];
    }
    return None, factors[..], headers[..];
  }

  /** The loop of `writeHeaders`: each exported type's factor and name go in the next
      column, with a running column index from 5. */
  method FillColumns(types: seq<GradeType>, showFactor: real -> string, factors: array<string>, headers: array<string>)
    returns (err: Option<Error>)
    requires factors != headers
    requires factors[..] == Blank(|types| + 4) && headers[..] == HeaderBase(|types|)
    modifies factors, headers
    ensures HeaderFits(types) ==> err.None? && factors[..] == FactorRow(types, showFactor) && headers[..] == HeaderRow(types)
    ensures !HeaderFits(types) ==> err == Some(IndexOutOfBounds)
  {
    var n := |types|;
    SpreadNothing(HeaderBase(n), 5);
    SpreadNothing(Blank(n + 4), 5);
    var index := 5;
    ghost var ex: seq<GradeType> := [];
    for i := 0 to n
      invariant ex == Exported(types[..i])
      invariant index == 5 + |ex| && index <= n + 5
      invariant |ex| > 0 ==> index <= n + 4
      invariant headers[..] == Spread(HeaderBase(n), 5, Names(ex))
      invariant factors[..] == Spread(Blank(n + 4), 5, Factors(ex, showFactor))
    {
      ExportedStep(types, i);
      if types[i].name != AverageName {
        if index >= n + 4 {
          ExportedPrefix(types, i + 1);
          return Some(IndexOutOfBounds);
        }
        HeaderStep(types, i, showFactor);
        headers[index] := types[i].name;
        factors[index] := showFactor(types[i].factor);
        index := index + 1;
        ex := ex + [types[i]];
      }
    }
    assert types[..n] == types;
    return None;
  }

  /** `writeHeaders`: the factor row, then the header row; nothing is written when the
      arrays overflow. */
  method WriteHeaders(w: CsvWriter, types: seq<GradeType>, showFactor: real -> string) returns (err: Option<Error>)
    modifies w
    ensures HeaderFits(types) ==> err.None? && w.rows == old(w.rows) + [FactorRow(types, showFactor), HeaderRow(types)]
    ensures !HeaderFits(types) ==> err == Some(IndexOutOfBounds) && w.rows == old(w.rows)
  {
    var factorCells, headerCells;
    err, factorCells, headerCells := FillHeaders(types, showFactor);
    if err.Some? {
      return;
    }
    w.WriteNext(factorCells);
    w.WriteNext(headerCells);
  }

  // ------------------------------------------------------------------ writeStudentData

  /** The cell of a grade: its formatted value, or "" when the student has none. */
  function GradeCell(g: Option<real>, show: real -> string): string {
    match g
    case None => ""
    case Some(v) => show(v)
  }

  /** The row of the k-th student (from 0): its 1-based number, name, "M"/"F", "B" or "",
      then one cell per imported type, "average" included. */
  function StudentRow(k: nat, s: Student, types: seq<GradeType>, grade: (Student, GradeType) -> Option<real>,
                      show: real -> string): (r: seq<string>)
    ensures |r| == |types| + 4
  {
    [IntToString(k + 1), s.name, if s.gender == Man then "M" else "F", if s.bachelor then "B" else ""]
    + seq(|types|, t requires 0 <= t < |types| => GradeCell(grade(s, types[t]), show))
  }

  /** The cells of a student row: its number, its name, "M" or "F", "B" or "", and in cell
      4 + t the grade of type t, for every type. */
  lemma StudentRowCells(k: nat, s: Student, types: seq<GradeType>, grade: (Student, GradeType) -> Option<real>,
                        show: real -> string)
    ensures var r := StudentRow(k, s, types, grade, show);
      && ParseInt(r[0]) == k + 1
      && r[1] == s.name
      && (r[2] == "M" <==> s.gender == Man) && (r[2] != "M" ==> r[2] == "F")
      && (r[3] == "B" <==> s.bachelor) && (r[3] != "B" ==> r[3] == "")
      && forall t :: 0 <= t < |types| ==> (grade(s, types[t]).None? ==> r[4 + t] == "")
                                          && (grade(s, types[t]).Some? ==> r[4 + t] == show(grade(s, types[t]).value))
  {
    ParseIntToString(k + 1);
  }

  /** Students end up numbered 1, 2, … : two rows have the same number only at the same
      position. */
  lemma StudentNumbersDistinct(k: nat, k': nat, s: Student, s': Student, types: seq<GradeType>,
                               grade: (Student, GradeType) -> Option<real>, show: real -> string)
    requires StudentRow(k, s, types, grade, show)[0] == StudentRow(k', s', types, grade, show)[0]
    ensures k == k'
  {
    IntToStringInjective(k + 1, k' + 1);
  }

  /** The student row of `writeStudentData` for one student, filled in an array with a
      running grade index from 4. */
  method StudentInfo(k: nat, s: Student, types: seq<GradeType>, grade: (Student, GradeType) -> Option<real>,
                     show: real -> string) returns (row: seq<string>)
    ensures row == StudentRow(k, s, types, grade, show)
  {
    ghost var want := StudentRow(k, s, types, grade, show);
    var info := new string[|types| + 4](_ => "");
    info[0] := IntToString(k + 1);
    info[1] := s.name;
    info[2] := if s.gender == Man then "M" else "F";
    info[3] := if s.bachelor then "B" else "";
    var gradeIndex := 4;
    for t := 0 to |types|
      invariant gradeIndex == 4 + t
      invariant forall c :: 0 <= c < 4 + t ==> info[c] == want[c]
    {
      var g := grade(s, types[t]);
      info[gradeIndex] := if g.Some? then show(g.value) else "";
      gradeIndex := gradeIndex + 1;
    }
    row := info[..];
  }

  function StudentRows(students: seq<Student>, types: seq<GradeType>, grade: (Student, GradeType) -> Option<real>,
                       show: real -> string): (r: seq<seq<string>>)
    ensures |r| == |students|
    ensures forall k :: 0 <= k < |students| ==> r[k] == StudentRow(k, students[k], types, grade, show)
  {
    seq(|students|, k requires 0 <= k < |students| => StudentRow(k, students[k], types, grade, show))
  }

  /** `writeStudentData`: one row per student, in the given order. */
  method WriteStudentData(w: CsvWriter, students: seq<Student>, types: seq<GradeType>,
                          grade: (Student, GradeType) -> Option<real>, show: real -> string)
    modifies w
    ensures w.rows == old(w.rows) + StudentRows(students, types, grade, show)
  {
    var studentIndex := 1;
    for k := 0 to |students|
      invariant studentIndex == k + 1
      invariant w.rows == old(w.rows) + StudentRows(students[..k], types, grade, show)
    {
      var row := StudentInfo(studentIndex - 1, students[k], types, grade, show);
      studentIndex := studentIndex + 1;
      assert StudentRows(students[..k + 1], types, grade, show) == StudentRows(students[..k], types, grade, show) + [row];
      w.WriteNext(row);
    }
    assert students[..|students|] == students;
  }

  /** The header and the data disagree on the columns: with types [T, average], T's name
      heads column 5, while T's grade is written in column 4 and the average's in column 5. */
  lemma ColumnMisalignment(t: GradeType, a: GradeType, s: Student, grade: (Student, GradeType) -> Option<real>,
                           show: real -> string)
    requires t.name != AverageName && a.name == AverageName
    requires grade(s, t).Some? && grade(s, a).Some?
    ensures HeaderRow([t, a])[5] == t.name && HeaderRow([t, a])[4] == ""
    ensures StudentRow(0, s, [t, a], grade, show)[4] == show(grade(s, t).value)
    ensures StudentRow(0, s, [t, a], grade, show)[5] == show(grade(s, a).value)
  {
    assert [t, a][..1] == [t];
    assert Exported([t]) == [t];
    assert Exported([t, a]) == [t];
    SpreadCells(HeaderBase(2), 5, Names([t]));
  }

  // ------------------------------------------------------------------ summary

  /** The count row of `writeCountRow`: the caption in cell 1 and the count in cell 2. */
  function CountRow(caption: string, count: int, rowLength: nat): seq<string>
    requires rowLength >= 3
  {
    Blank(rowLength)[1 := caption][2 := IntToString(count)]
  }

  /** `writeCountRow`: a row shorter than three cells has no cell 2 and raises. */
  method WriteCountRow(w: CsvWriter, caption: string, count: int, rowLength: nat) returns (err: Option<Error>)
    modifies w
    ensures rowLength < 3 ==> err == Some(IndexOutOfBounds) && w.rows == old(w.rows)
    ensures rowLength >= 3 ==> err.None? && w.rows == old(w.rows) + [CountRow(caption, count, rowLength)]
  {
    var row := new string[rowLength](_ => "");
    if rowLength < 2 {
      return Some(IndexOutOfBounds);
    }
    row[1] := caption;
    if rowLength < 3 {
      return Some(IndexOutOfBounds);
    }
    row[2] := IntToString(count);
    assert row[..] == CountRow(caption, count, rowLength);
    w.WriteNext(row[..]);
    return None;
  }

  /** `writeEmptyRows`: `numRows` blank rows (none when it is not positive). */
  method WriteEmptyRows(w: CsvWriter, numRows: int, rowLength: nat)
    modifies w
    ensures |w.rows| == |old(w.rows)| + (if numRows > 0 then numRows else 0)
    ensures w.rows[..|old(w.rows)|] == old(w.rows)
    ensures forall j :: |old(w.rows)| <= j < |w.rows| ==> w.rows[j] == Blank(rowLength)
  {
    var emptyRow := new string[rowLength](_ => "");
    assert emptyRow[..] == Blank(rowLength);
    var i := 0;
    while i < numRows
      invariant numRows > 0 ==> 0 <= i <= numRows
      invariant numRows <= 0 ==> i == 0
      invariant |w.rows| == |old(w.rows)| + i && w.rows[..|old(w.rows)|] == old(w.rows)
      invariant forall j :: |old(w.rows)| <= j < |w.rows| ==> w.rows[j] == Blank(rowLength)
      invariant emptyRow[..] == Blank(rowLength)
    {
      w.WriteNext(emptyRow[..]);
      i := i + 1;
    }
  }

  /** The bachelor row: "Nombre B" in cell 1 and the count in cell 3, cell 2 left empty. */
  function BachelorRow(count: int, rowLength: nat): seq<string>
    requires rowLength >= 4
  {
    Blank(rowLength)[1 := "Nombre B"][3 := IntToString(count)]
  }

  /** The summary block for n grade types: four blank rows, then the women, men and
      bachelor counts, the men being the total minus the women. */
  function SummaryRows(n: nat, women: int, total: int, bachelors: int): (r: seq<seq<string>>)
    ensures |r| == 7
  {
    [Blank(n + 4), Blank(n + 4), Blank(n + 4), Blank(n + 4),
     CountRow("Nombre F", women, n + 4), CountRow("Nombre M", total - women, n + 4),
     BachelorRow(bachelors, n + 4)]
  }

  /** What the summary says: the counts can be read back from their cells, the men's count
      being total minus women, and the bachelor count sits one column to the right of the
      others. */
  lemma SummaryCells(n: nat, women: int, total: int, bachelors: int)
    ensures var r := SummaryRows(n, women, total, bachelors);
      && (forall j :: 0 <= j < 7 ==> |r[j]| == n + 4)
      && (forall j, c :: 0 <= j < 4 && 0 <= c < n + 4 ==> r[j][c] == "")
      && r[4][1] == "Nombre F" && ParseInt(r[4][2]) == women
      && r[5][1] == "Nombre M" && ParseInt(r[5][2]) == total - women
      && r[6][1] == "Nombre B" && r[6][2] == "" && ParseInt(r[6][3]) == bachelors
  {
    ParseIntToString(women);
    ParseIntToString(total - women);
    ParseIntToString(bachelors);
  }

  /** `writeSummaryData` for n grade types. */
  method WriteSummaryData(w: CsvWriter, n: nat, women: int, total: int, bachelors: int)
    modifies w
    ensures w.rows == old(w.rows) + SummaryRows(n, women, total, bachelors)
  {
    ghost var before := w.rows;
    WriteEmptyRows(w, 4, n + 4);
    assert w.rows == before + [Blank(n + 4), Blank(n + 4), Blank(n + 4), Blank(n + 4)] by {
      assert w.rows[..|before|] == before;
      assert w.rows == w.rows[..|before|] + w.rows[|before|..];
    }
    var e1 := WriteCountRow(w, "Nombre F", women, n + 4);
    var e2 := WriteCountRow(w, "Nombre M", total - women, n + 4);
    var row := new string[n + 4](_ => "");
    row[1] := "Nombre B";
    row[3] := IntToString(bachelors);
    assert row[..] == BachelorRow(bachelors, n + 4);
    w.WriteNext(row[..]);
  }

  // ------------------------------------------------------------------ createStudentsCSV

  /** The rows of the export file. */
  function ExportRows(types: seq<GradeType>, students: seq<Student>, grade: (Student, GradeType) -> Option<real>,
                      show: real -> string, showFactor: real -> string, women: int, total: int, bachelors: int)
    : seq<seq<string>>
  {
    [FactorRow(types, showFactor), HeaderRow(types)]
    + StudentRows(students, types, grade, show) + SummaryRows(|types|, women, total, bachelors)
  }

  /** Every row of the export file has width n + 4. */
  lemma ExportWidth(types: seq<GradeType>, students: seq<Student>, grade: (Student, GradeType) -> Option<real>,
                    show: real -> string, showFactor: real -> string, women: int, total: int, bachelors: int)
    ensures var r := ExportRows(types, students, grade, show, showFactor, women, total, bachelors);
      |r| == |students| + 9 && forall j :: 0 <= j < |r| ==> |r[j]| == |types| + 4
  {
    var r := ExportRows(types, students, grade, show, showFactor, women, total, bachelors);
    var srows := StudentRows(students, types, grade, show);
    var sum := SummaryRows(|types|, women, total, bachelors);
    forall j | 0 <= j < |r| ensures |r[j]| == |types| + 4 {
      if 2 <= j < 2 + |students| {
        assert r[j] == srows[j - 2];
      } else if j >= 2 + |students| {
        assert r[j] == sum[j - 2 - |students|];
      }
    }
  }

  /** `createStudentsCSV` with the imported grade types, the project's students and the
      repository counts given; a header that does not fit stops it before any row is
      written. */
  method CreateStudentsCsv(types: seq<GradeType>, students: seq<Student>, grade: (Student, GradeType) -> Option<real>,
                           show: real -> string, showFactor: real -> string, women: int, total: int, bachelors: int)
    returns (r: Result<seq<seq<string>>>)
    ensures r.Ok? <==> HeaderFits(types)
    ensures r.Ok? ==> r.value == ExportRows(types, students, grade, show, showFactor, women, total, bachelors)
    ensures r.Err? ==> r.error == IndexOutOfBounds
  {
    var w := new CsvWriter();
    var err := WriteHeaders(w, types, showFactor);
    if err.Some? {
      return Err(err.value);
    }
    ghost var headerRows := [FactorRow(types, showFactor), HeaderRow(types)];
    assert w.rows == headerRows;
    WriteBody(w, types, students, grade, show, women, total, bachelors);
    assert w.rows == ExportRows(types, students, grade, show, showFactor, women, total, bachelors);
    return Ok(w.rows);
  }

  /** What `createStudentsCSV` writes after the headers: the students, then the summary. */
  method WriteBody(w: CsvWriter, types: seq<GradeType>, students: seq<Student>,
                   grade: (Student, GradeType) -> Option<real>, show: real -> string,
                   women: int, total: int, bachelors: int)
    modifies w
    ensures w.rows == old(w.rows) + StudentRows(students, types, grade, show) + SummaryRows(|types|, women, total, bachelors)
  {
    WriteStudentData(w, students, types, grade, show);
    WriteSummaryData(w, |types|, women, total, bachelors);
  }
}
