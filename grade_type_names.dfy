/** The enumeration of predefined grade type names and its reverse lookup. */
module GradeTypeNames {
  import opened Wrappers

  datatype GradeTypeName = Average | Default | Padl | Pdlo | Pwnd | Irs | StageS7 | S5 | S6

  /** The constants in declaration order, as `GradeTypeName.values()` returns them. */
  const AllNames: seq<GradeTypeName> := [Average, Default, Padl, Pdlo, Pwnd, Irs, StageS7, S5, S6]

  function DisplayName(g: GradeTypeName): string {
    match g
    case Average => "average"
    case Default => "default"
    case Padl => "PADL"
    case Pdlo => "PDLO"
    case Pwnd => "PWND"
    case Irs => "IRS"
    case StageS7 => "STAGE S7"
    case S5 => "S5"
    case S6 => "S6"
  }

  /** The first constant of `names`, from position `from` on, whose display name equals `s`
      (`filter(...).findFirst()`). */
  function FindFrom(names: seq<GradeTypeName>, s: string, from: nat): (r: Option<GradeTypeName>)
    requires from <= |names|
    ensures r.Some? ==> exists k :: from <= k < |names| && names[k] == r.value && DisplayName(r.value) == s
                                    && forall j :: from <= j < k ==> DisplayName(names[j]) != s
    ensures r.None? ==> forall k :: from <= k < |names| ==> DisplayName(names[k]) != s
    decreases |names| - from
  {
    if from == |names| then None
    else if DisplayName(names[from]) == s then Some(names[from])
    else FindFrom(names, s, from + 1)
  }

  /** `GradeTypeName.fromDisplayName`: an exact, case-sensitive match on the display name;
      no match is an IllegalArgumentException. */
  function FromDisplayName(s: string): (r: Result<GradeTypeName>)
    ensures r.Ok? ==> DisplayName(r.value) == s
    ensures r.Err? ==> r.error == IllegalArgument && forall g: GradeTypeName :: DisplayName(g) != s
  {
    match FindFrom(AllNames, s, 0)
    case Some(g) => Ok(g)
    case None => Err(IllegalArgument)
  }

  /** No two constants share a display name. */
  lemma DisplayNamesDistinct(g: GradeTypeName, h: GradeTypeName)
    requires DisplayName(g) == DisplayName(h)
    ensures g == h
  {
  }

  /** Looking a constant up by its own display name gives that constant back. */
  lemma FromDisplayNameRoundTrip(g: GradeTypeName)
    ensures FromDisplayName(DisplayName(g)) == Ok(g)
  {
    var r := FromDisplayName(DisplayName(g));
    assert g in AllNames;
    if r.Ok? {
      DisplayNamesDistinct(r.value, g);
    }
  }

  /** The match is case-sensitive: "Average" is not a display name. */
  lemma CaseSensitive()
    ensures FromDisplayName("Average") == Err(IllegalArgument)
    ensures FromDisplayName("average") == Ok(Average)
  {
    FromDisplayNameRoundTrip(Average);
  }
}
