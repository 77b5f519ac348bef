/** Team allocation: the project's teams are deleted and recreated, then the students
    `women + men` are placed in two phases.
      Phase A fills `womenPerTeam` slots per team, team after team, from the front of
      `women + men`.
      Phase B deals the remaining students one per team along a ranking of the teams that
      the store re-reads at the start of each full round.
    The ranking query (teams by ascending average grade) is an oracle: `ranking(c)` is
    the answer of its `c`-th call, as indices into the list of new teams. */
module TeamService {
  import opened Wrappers
  import opened Arith
  import opened JavaStrings
  import TeamCriteria

  datatype Team = Team(id: int, name: string)

  /** The project's allocation settings: number of teams and women per team. */
  datatype ProjectDetails = ProjectDetails(nbTeams: int, nbWomen: int)

  /** The name given to the team created at position `i`. */
  function TeamName(i: nat): string {
    "Team " + IntToString(i + 1)
  }

  /** The teams `createTeams` builds when the store's next id is `first`. */
  function NewTeams(first: int, n: nat): (ts: seq<Team>)
    ensures |ts| == n
    ensures forall i :: 0 <= i < n ==> ts[i].id == first + i && ts[i].name == TeamName(i)
  {
    seq(n, i requires 0 <= i < n => Team(first + i, TeamName(i)))
  }

  /** The new teams carry pairwise different names. */
  lemma TeamNamesDistinct(i: nat, j: nat)
    requires TeamName(i) == TeamName(j)
    ensures i == j
  {
    var p := "Team ";
    assert IntToString(i + 1) == TeamName(i)[|p|..];
    assert IntToString(j + 1) == TeamName(j)[|p|..];
    IntToStringInjective(i + 1, j + 1);
  }

  predicate Distinct(s: seq<int>) {
    forall k, l :: 0 <= k < l < |s| ==> s[k] != s[l]
  }

  /** `n` team indices, each below `n`. */
  predicate TeamIndices(s: seq<int>, n: int) {
    |s| == n && forall k :: 0 <= k < |s| ==> 0 <= s[k] < n
  }

  /** Every team index below `n` occurs in `s`, and only once: with `TeamIndices`, `s` is a
      ranking of the `n` teams. */
  predicate EachTeamOnce(s: seq<int>, n: int) {
    Distinct(s) && forall t :: 0 <= t < n ==> t in s
  }

  /** The team index that position `p` of `women + men` receives.  Positions below
      `nbTeams * womenPerTeam` are Phase A (slot `p` belongs to team `p / womenPerTeam`);
      the others are Phase B, where round `q` uses the answer of call `q + 1` of the
      ranking query (call 0 is the one made before the Phase-B loop). */
  function SlotOf(p: nat, nbTeams: int, womenPerTeam: nat, ranking: nat -> seq<int>): (t: int)
    requires nbTeams >= 1
    requires forall c: nat :: TeamIndices(ranking(c), nbTeams)
    ensures 0 <= t < nbTeams
  {
    var k := nbTeams * womenPerTeam;
    if p < k then
      DivAtLeast(p, womenPerTeam, nbTeams);
      p / womenPerTeam
    else
      PhaseBTeam(p - k, nbTeams, ranking)
  }

  /** The team of Phase-B offset `x`: entry `x % nbTeams` of the ranking read for round
      `x / nbTeams`. */
  function PhaseBTeam(x: nat, nbTeams: int, ranking: nat -> seq<int>): (t: int)
    requires nbTeams >= 1
    requires forall c: nat :: TeamIndices(ranking(c), nbTeams)
    ensures 0 <= t < nbTeams
  {
    assert TeamIndices(ranking(1 + x / nbTeams), nbTeams);
    ranking(1 + x / nbTeams)[x % nbTeams]
  }

  // ------------------------------------------------------------------ properties of the placement

  /** Phase A is row-major: slot `j` of team `t` is position `t * womenPerTeam + j`. */
  lemma PhaseAPosition(t: nat, j: nat, nbTeams: int, womenPerTeam: nat, ranking: nat -> seq<int>)
    requires nbTeams >= 1 && forall c: nat :: TeamIndices(ranking(c), nbTeams)
    requires t < nbTeams && j < womenPerTeam
    ensures t * womenPerTeam + j < nbTeams * womenPerTeam
    ensures SlotOf(t * womenPerTeam + j, nbTeams, womenPerTeam, ranking) == t
  {
    MulMonotone(t + 1, nbTeams, womenPerTeam);
    DivModUnique(t * womenPerTeam + j, womenPerTeam, t, j);
  }

  /** In Phase A team `t` receives exactly the positions `t * womenPerTeam ..
      (t + 1) * womenPerTeam - 1`. */
  lemma PhaseATeamBlock(p: nat, t: int, nbTeams: int, womenPerTeam: nat, ranking: nat -> seq<int>)
    requires nbTeams >= 1 && forall c: nat :: TeamIndices(ranking(c), nbTeams)
    requires p < nbTeams * womenPerTeam
    ensures SlotOf(p, nbTeams, womenPerTeam, ranking) == t
            <==> t * womenPerTeam <= p < (t + 1) * womenPerTeam
  {
    var q := p / womenPerTeam;
    assert p == q * womenPerTeam + p % womenPerTeam;
    if t * womenPerTeam <= p < (t + 1) * womenPerTeam {
      DivModUnique(p, womenPerTeam, t, p - t * womenPerTeam);
    }
    if SlotOf(p, nbTeams, womenPerTeam, ranking) == t {
      assert (t + 1) * womenPerTeam == t * womenPerTeam + womenPerTeam;
    }
  }

  /** Position `r` of Phase-B round `q` goes to entry `r` of the ranking read for that round. */
  lemma PhaseBPosition(q: nat, r: nat, nbTeams: int, womenPerTeam: nat, ranking: nat -> seq<int>)
    requires nbTeams >= 1 && forall c: nat :: TeamIndices(ranking(c), nbTeams)
    requires r < nbTeams
    ensures SlotOf(nbTeams * womenPerTeam + q * nbTeams + r, nbTeams, womenPerTeam, ranking)
            == ranking(1 + q)[r]
  {
    DivModUnique(q * nbTeams + r, nbTeams, q, r);
  }

  /** The Phase-B step at position `p`, in round `q` at offset `r`, takes entry `r` of the
      ranking read for round `q`. */
  lemma PhaseBStep(p: int, nbTeams: int, womenPerTeam: nat, ranking: nat -> seq<int>, q: int, r: int)
    requires nbTeams >= 1 && forall c: nat :: TeamIndices(ranking(c), nbTeams)
    requires p - nbTeams * womenPerTeam == q * nbTeams + r && 0 <= q && 0 <= r < nbTeams
    ensures p >= 0
    ensures (p - nbTeams * womenPerTeam) % nbTeams == r
    ensures |ranking(1 + q)| == nbTeams
    ensures ranking(1 + q)[r] == PhaseBTeam(p - nbTeams * womenPerTeam, nbTeams, ranking)
  {
    var k := nbTeams * womenPerTeam;
    MulMonotone(0, nbTeams, womenPerTeam);
    DivModUnique(p - k, nbTeams, q, r);
    assert TeamIndices(ranking(1 + q), nbTeams);
  }

  /** Within one Phase-B round no team receives two students. */
  lemma PhaseBRoundInjective(p: nat, p': nat, nbTeams: int, womenPerTeam: nat, ranking: nat -> seq<int>)
    requires nbTeams >= 1 && forall c: nat :: TeamIndices(ranking(c), nbTeams) && EachTeamOnce(ranking(c), nbTeams)
    requires nbTeams * womenPerTeam <= p < p'
    requires (p - nbTeams * womenPerTeam) / nbTeams == (p' - nbTeams * womenPerTeam) / nbTeams
    ensures SlotOf(p, nbTeams, womenPerTeam, ranking) != SlotOf(p', nbTeams, womenPerTeam, ranking)
  {
    var k := nbTeams * womenPerTeam;
    var q := (p - k) / nbTeams;
    var x, x' := p - k, p' - k;
    assert x == q * nbTeams + x % nbTeams;
    assert x' == q * nbTeams + x' % nbTeams;
    var s := ranking(1 + q);
    assert EachTeamOnce(s, nbTeams);
    assert x % nbTeams < x' % nbTeams;
  }

  /** Every team receives a student in every complete Phase-B round. */
  lemma PhaseBRoundCoversTeams(q: nat, t: int, nbTeams: int, womenPerTeam: nat, ranking: nat -> seq<int>)
    returns (r: nat)
    requires nbTeams >= 1 && forall c: nat :: TeamIndices(ranking(c), nbTeams) && EachTeamOnce(ranking(c), nbTeams)
    requires 0 <= t < nbTeams
    ensures r < nbTeams
    ensures SlotOf(nbTeams * womenPerTeam + q * nbTeams + r, nbTeams, womenPerTeam, ranking) == t
  {
    var s := ranking(1 + q);
    assert EachTeamOnce(s, nbTeams);
    assert t in s;
    r :| 0 <= r < |s| && s[r] == t;
    PhaseBPosition(q, r, nbTeams, womenPerTeam, ranking);
  }

  /** With no women quota every student goes through Phase B. */
  lemma NoQuotaAllPhaseB(p: nat, nbTeams: int, ranking: nat -> seq<int>)
    requires nbTeams >= 1 && forall c: nat :: TeamIndices(ranking(c), nbTeams)
    ensures SlotOf(p, nbTeams, 0, ranking) == ranking(1 + p / nbTeams)[p % nbTeams]
  {
  }

  /** With one team every student is in it. */
  lemma SingleTeam(p: nat, womenPerTeam: nat, ranking: nat -> seq<int>)
    requires forall c: nat :: TeamIndices(ranking(c), 1)
    ensures SlotOf(p, 1, womenPerTeam, ranking) == 0
  {
  }

  /** The ranking read before the Phase-B loop never decides a placement. */
  lemma FirstRankingUnused(p: nat, nbTeams: int, womenPerTeam: nat, ranking: nat -> seq<int>, ranking': nat -> seq<int>)
    requires nbTeams >= 1
    requires forall c: nat :: TeamIndices(ranking(c), nbTeams)
    requires forall c: nat :: TeamIndices(ranking'(c), nbTeams)
    requires forall c: nat :: c >= 1 ==> ranking(c) == ranking'(c)
    ensures SlotOf(p, nbTeams, womenPerTeam, ranking) == SlotOf(p, nbTeams, womenPerTeam, ranking')
  {
    var k := nbTeams * womenPerTeam;
    if p >= k {
      assert ranking(1 + (p - k) / nbTeams) == ranking'(1 + (p - k) / nbTeams);
    }
  }

  /** Two teams and two women per team, eight students: the four quota slots go to teams
      0, 0, 1, 1, then each of the two remaining rounds follows its own ranking. */
  lemma TwoTeamsTwoWomenExample(ranking: nat -> seq<int>)
    requires forall c: nat :: TeamIndices(ranking(c), 2)
    ensures SlotOf(0, 2, 2, ranking) == 0 && SlotOf(1, 2, 2, ranking) == 0
    ensures SlotOf(2, 2, 2, ranking) == 1 && SlotOf(3, 2, 2, ranking) == 1
    ensures SlotOf(4, 2, 2, ranking) == ranking(1)[0] && SlotOf(5, 2, 2, ranking) == ranking(1)[1]
    ensures SlotOf(6, 2, 2, ranking) == ranking(2)[0] && SlotOf(7, 2, 2, ranking) == ranking(2)[1]
  {
  }

  /** How many times `fillTeams` runs the ranking query: once before Phase B and once at the
      start of every Phase-B round. */
  function RankingReads(nbStudent: int, k: int, nbTeams: int): (c: nat)
    requires nbTeams >= 1
    ensures nbStudent <= k ==> c == 1
  {
    if nbStudent <= k then 1 else 1 + (nbStudent - k + nbTeams - 1) / nbTeams
  }

  // ------------------------------------------------------------------ criteria (service flavour)

  /** The criteria of `getCriteriaByTeamId`: a raw women count against the project's
      `nbWomen`, not a percentage. */
  function ServiceCriteria(nbWomen: int, nbBachelor: int, projectNbWomen: int): (c: TeamCriteria.Criteria)
    ensures c.nbWomen == nbWomen && c.nbBachelor == nbBachelor && c.nbStudents.None?
    ensures c.validateWoman <==> nbWomen >= projectNbWomen
    ensures c.validateBachelor <==> nbBachelor >= 1
  {
    TeamCriteria.Criteria(nbWomen, nbBachelor, None, nbWomen >= projectNbWomen, nbBachelor >= 1)
  }

  /** The two criteria disagree: one woman in a team of two meets a target of 2 read as a
      percentage (50 >= 2) but not read as a count (1 < 2). */
  lemma CriteriaDefinitionsDiffer()
    ensures TeamCriteria.GetCriteria(2, 2, 1, 1).validateWoman
    ensures !ServiceCriteria(1, 1, 2).validateWoman
  {
  }

  // ------------------------------------------------------------------ the store

  /** The project's teams and the students' team references, as the repositories hold them. */
  class TeamStore {
    var teams: seq<Team>
    var teamOf: map<int, int>       // student id -> id of the student's team
    var project: ProjectDetails     // the project's saved allocation settings
    var nextId: int                 // the id the store gives to the next saved team

    /** Team ids increase in creation order and are below `nextId`. */
    ghost predicate Valid()
      reads this
    {
      && (forall a, b :: 0 <= a < b < |teams| ==> teams[a].id < teams[b].id)
      && (forall a :: 0 <= a < |teams| ==> teams[a].id < nextId)
    }

    constructor (project: ProjectDetails)
      ensures Valid()
      ensures teams == [] && teamOf == map[] && this.project == project
    {
      teams := [];
      teamOf := map[];
      this.project := project;
      nextId := 0;
    }

    /** `deleteAllTeamsByProject`: every student leaves its team, then the teams are deleted. */
    method DeleteAllTeamsByProject()
      modifies this`teams, this`teamOf
      ensures teams == [] && teamOf == map[]
    {
      teamOf := map[];
      teams := [];
    }

    /** `getCriteriaByTeamId`: an unknown team is a NotFound error. */
    function CriteriaByTeamId(id: int, nbWomen: int, nbBachelor: int, projectNbWomen: int): (r: Result<TeamCriteria.Criteria>)
      reads this
      ensures r.Err? <==> forall a :: 0 <= a < |teams| ==> teams[a].id != id
      ensures r.Err? ==> r.error == NotFound
      ensures r.Ok? ==> r.value == ServiceCriteria(nbWomen, nbBachelor, projectNbWomen)
    {
      if exists a :: 0 <= a < |teams| && teams[a].id == id then Ok(ServiceCriteria(nbWomen, nbBachelor, projectNbWomen))
      else Err(NotFound)
    }

    /** `createTeams`: rejects a count below one; otherwise deletes the existing teams (if
        any) and saves `nbTeams` new teams named "Team 1" .. "Team nbTeams", in order. */
    method CreateTeams(nbTeams: int) returns (r: Result<seq<Team>>)
      requires Valid()
      modifies this`teams, this`teamOf, this`nextId
      ensures Valid()
      ensures nbTeams < 1 ==>
        r == Err(IllegalArgument) && teams == old(teams) && teamOf == old(teamOf) && nextId == old(nextId)
      ensures nbTeams >= 1 ==>
        && r == Ok(NewTeams(old(nextId), nbTeams))
        && teams == r.value
        && teamOf == (if old(teams) == [] then old(teamOf) else map[])
        && nextId == old(nextId) + nbTeams
    {
      if nbTeams < 1 {
        return Err(IllegalArgument);
      }
      if teams != [] {
        DeleteAllTeamsByProject();
      }
      var created: seq<Team> := [];
      var i := 0;
      while i < nbTeams
        invariant 0 <= i <= nbTeams
        invariant created == NewTeams(old(nextId), i)
        invariant teams == created && nextId == old(nextId) + i
        invariant teamOf == (if old(teams) == [] then old(teamOf) else map[])
      {
        var team := Team(nextId, TeamName(i));
        teams := teams + [team];
        created := created + [team];
        nextId := nextId + 1;
        i := i + 1;
      }
      return Ok(created);
    }

    /** `fillTeams` over `students == women + men` (the code indexes `women` below
        `|women|` and `men` after it).  A negative quota makes the first Phase-B step index
        `women` at a negative position; nobody has been placed by then. */
    method FillTeams(newTeams: seq<Team>, women: seq<int>, men: seq<int>, womenPerTeam: int,
                     nbStudent: int, ranking: nat -> seq<int>)
      returns (err: Option<Error>, queries: nat)
      requires |newTeams| >= 1
      requires nbStudent == |women| + |men|
      requires Distinct(women + men)
      requires forall c: nat :: TeamIndices(ranking(c), |newTeams|)
      modifies this`teamOf
      ensures womenPerTeam < 0 ==> err == Some(IndexOutOfBounds) && queries == 2 && teamOf == old(teamOf)
      ensures womenPerTeam >= 0 ==>
        && err == None
        && queries == RankingReads(nbStudent, |newTeams| * womenPerTeam, |newTeams|)
        && (forall p :: 0 <= p < nbStudent ==>
              (women + men)[p] in teamOf
              && teamOf[(women + men)[p]] == newTeams[SlotOf(p, |newTeams|, womenPerTeam, ranking)].id)
        && (forall s :: s !in women + men ==>
              (s in teamOf <==> s in old(teamOf)) && (s in teamOf ==> teamOf[s] == old(teamOf)[s]))
    {
      var nbTeams := |newTeams|;
      if womenPerTeam < 0 {
        // Phase A has no slot; Phase B starts at the negative position nbTeams * womenPerTeam,
        // re-reads the ranking, and women.get of that position fails.
        return Some(IndexOutOfBounds), 2;
      }
      ghost var students := women + men;
      ghost var before := teamOf;
      ghost var ids := SlotIds(newTeams, womenPerTeam, ranking, nbStudent);
      assert students[..0] == [];

      // Phase A
      var i := 0;
      while i < nbTeams
        invariant 0 <= i <= nbTeams
        invariant i * womenPerTeam <= nbTeams * womenPerTeam
        invariant teamOf == Overlay(before, students, ids, Min(i * womenPerTeam, nbStudent))
      {
        QuotaIds(newTeams, womenPerTeam, ranking, nbStudent, i);
        PlaceQuota(newTeams, women, men, womenPerTeam, nbStudent, ids, before, i);
        MulMonotone(i + 1, nbTeams, womenPerTeam);
        i := i + 1;
      }

      // Phase B
      PhaseBIds(newTeams, womenPerTeam, ranking, nbStudent);
      queries := PlaceRemaining(newTeams, women, men, womenPerTeam, nbStudent, ranking, ids, before);
      OverlayPlaces(before, students, ids, nbStudent);
      assert students[..nbStudent] == students;
      return None, queries;
    }

    /** Phase A for team `i`: its `womenPerTeam` slots take the next positions of
        `women + men`, as long as there are students left. */
    method PlaceQuota(newTeams: seq<Team>, women: seq<int>, men: seq<int>, womenPerTeam: nat,
                      nbStudent: int, ghost ids: seq<int>, ghost before: map<int, int>, i: nat)
      requires i < |newTeams|
      requires nbStudent == |women| + |men| && |ids| == nbStudent
      requires forall p :: i * womenPerTeam <= p < (i + 1) * womenPerTeam && p < nbStudent ==> ids[p] == newTeams[i].id
      requires teamOf == Overlay(before, women + men, ids, Min(i * womenPerTeam, nbStudent))
      modifies this`teamOf
      ensures teamOf == Overlay(before, women + men, ids, Min((i + 1) * womenPerTeam, nbStudent))
    {
      var nbWomen := |women|;
      ghost var students := women + men;
      assert (i + 1) * womenPerTeam == i * womenPerTeam + womenPerTeam;
      var j := 0;
      while j < womenPerTeam
        invariant 0 <= j <= womenPerTeam
        invariant teamOf == Overlay(before, students, ids, Min(i * womenPerTeam + j, nbStudent))
      {
        var index := i * womenPerTeam + j;
        assert index < (i + 1) * womenPerTeam;
        PlaceInQuota(women, men, nbStudent, index, newTeams[i].id, ids, before);
        if index < nbWomen {
          teamOf := teamOf[women[index] := newTeams[i].id];
        } else if index < nbStudent {
          teamOf := teamOf[men[index - nbWomen] := newTeams[i].id];
        }
        j := j + 1;
      }
      assert i * womenPerTeam + womenPerTeam == (i + 1) * womenPerTeam;
    }

    /** Phase B: the ranking is read once, then re-read at the start of every round of
        `nbTeams` positions, and position `r` of a round goes to entry `r` of that ranking. */
    method PlaceRemaining(newTeams: seq<Team>, women: seq<int>, men: seq<int>, womenPerTeam: nat,
                          nbStudent: int, ranking: nat -> seq<int>, ghost ids: seq<int>, ghost before: map<int, int>)
      returns (queries: nat)
      requires |newTeams| >= 1
      requires nbStudent == |women| + |men|
      requires forall c: nat :: TeamIndices(ranking(c), |newTeams|)
      requires |ids| == nbStudent
      requires forall p :: |newTeams| * womenPerTeam <= p < nbStudent ==>
        ids[p] == newTeams[PhaseBTeam(p - |newTeams| * womenPerTeam, |newTeams|, ranking)].id
      requires teamOf == Overlay(before, women + men, ids, Min(|newTeams| * womenPerTeam, nbStudent))
      modifies this`teamOf
      ensures queries == RankingReads(nbStudent, |newTeams| * womenPerTeam, |newTeams|)
      ensures teamOf == Overlay(before, women + men, ids, nbStudent)
    {
      var nbTeams := |newTeams|;
      var nbWomen := |women|;
      ghost var students := women + men;
      // The list read here is replaced before its first use.
      var sortedTeams := ranking(0);
      queries := 1;
      var index := nbTeams * womenPerTeam;
      var p := index;
      ghost var q, r := 0, 0;
      while p < nbStudent
        invariant index <= p && (p <= nbStudent || p == index)
        invariant p - index == q * nbTeams + r && 0 <= q && 0 <= r < nbTeams
        invariant p == index ==> q == 0 && r == 0
        invariant queries == 1 + q + (if r > 0 then 1 else 0)
        invariant r > 0 ==> sortedTeams == ranking(1 + q)
        invariant teamOf == Overlay(before, students, ids, Min(p, nbStudent))
      {
        PhaseBStep(p, nbTeams, womenPerTeam, ranking, q, r);
        if (p - index) % nbTeams == 0 {
          sortedTeams := ranking(queries);
          queries := queries + 1;
        }
        var slot := sortedTeams[(p - index) % nbTeams];
        assert ids[p] == newTeams[slot].id && Min(p, nbStudent) == p;
        AssignTeam(women, men, p, newTeams[slot].id);
        p := p + 1;
        q, r := NextSlot(p - index, nbTeams, q, r);
      }
      assert Min(p, nbStudent) == nbStudent;
      PhaseBReads(nbStudent, index, nbTeams, q, r);
    }

    /** Gives student `p` of `women + men` the team `team`, reading it from `women` below
        `|women|` and from `men` after it. */
    method AssignTeam(women: seq<int>, men: seq<int>, p: int, team: int)
      requires 0 <= p < |women| + |men|
      modifies this`teamOf
      ensures teamOf == old(teamOf)[(women + men)[p] := team]
    {
      if p < |women| {
        assert (women + men)[p] == women[p];
        teamOf := teamOf[women[p] := team];
      } else {
        assert (women + men)[p] == men[p - |women|];
        teamOf := teamOf[men[p - |women|] := team];
      }
    }

    /** `generateTeams`: the feasibility check, then the project update, then `createTeams`
        (which checks the team count), then `fillTeams`. */
    method GenerateTeams(women: seq<int>, men: seq<int>, details: ProjectDetails, ranking: nat -> seq<int>)
      returns (err: Option<Error>)
      requires Valid()
      requires Distinct(women + men)
      requires details.nbTeams >= 1 ==> forall c: nat :: TeamIndices(ranking(c), details.nbTeams)
      modifies this
      ensures Valid()
      ensures |women| + |men| < details.nbTeams * details.nbWomen - 1 ==>
        err == Some(IllegalArgument)
        && teams == old(teams) && teamOf == old(teamOf) && project == old(project) && nextId == old(nextId)
      ensures |women| + |men| >= details.nbTeams * details.nbWomen - 1 && details.nbTeams < 1 ==>
        err == Some(IllegalArgument)
        && project == details && teams == old(teams) && teamOf == old(teamOf) && nextId == old(nextId)
      ensures |women| + |men| >= details.nbTeams * details.nbWomen - 1 && details.nbTeams >= 1 ==>
        && project == details
        && teams == NewTeams(old(nextId), details.nbTeams)
        && (err == None <==> details.nbWomen >= 0)
        && (details.nbWomen < 0 ==>
              err == Some(IndexOutOfBounds) && teamOf == (if old(teams) == [] then old(teamOf) else map[]))
        && (details.nbWomen >= 0 ==>
              (forall p :: 0 <= p < |women| + |men| ==>
                 (women + men)[p] in teamOf
                 && teamOf[(women + men)[p]] == teams[SlotOf(p, details.nbTeams, details.nbWomen, ranking)].id)
              && (forall s :: s !in women + men ==>
                    (s in teamOf <==> old(teams) == [] && s in old(teamOf))
                    && (s in teamOf ==> teamOf[s] == old(teamOf)[s])))
    {
      var nbStudent := |men| + |women|;
      var nbTeams := details.nbTeams;
      var womenPerTeam := details.nbWomen;
      if nbStudent < nbTeams * womenPerTeam - 1 {
        return Some(IllegalArgument);
      }
      project := details;
      var created := CreateTeams(nbTeams);
      if created.Err? {
        return Some(created.error);
      }
      var queries;
      err, queries := FillTeams(created.value, women, men, womenPerTeam, nbStudent, ranking);
    }
  }

  function Min(a: int, b: int): int {
    if a <= b then a else b
  }

  /** The id of the team each position `0 .. n - 1` of the allocation selects. */
  ghost function SlotIds(newTeams: seq<Team>, womenPerTeam: nat, ranking: nat -> seq<int>, n: nat): (ids: seq<int>)
    requires |newTeams| >= 1 && forall c: nat :: TeamIndices(ranking(c), |newTeams|)
    ensures |ids| == n
    ensures forall p :: 0 <= p < n ==> ids[p] == newTeams[SlotOf(p, |newTeams|, womenPerTeam, ranking)].id
  {
    seq(n, p requires 0 <= p < n => newTeams[SlotOf(p, |newTeams|, womenPerTeam, ranking)].id)
  }

  /** The team map once positions `0 .. n - 1` of `students` have been given the team ids
      `ids` holds for them, one after the other, starting from `before`. */
  ghost function Overlay(before: map<int, int>, students: seq<int>, ids: seq<int>, n: nat): map<int, int>
    requires n <= |students| && n <= |ids|
  {
    if n == 0 then before else Overlay(before, students, ids, n - 1)[students[n - 1] := ids[n - 1]]
  }

  /** With distinct students, the overlay gives every student of `students[..n]` the id of
      its position, and agrees with `before` on every other student. */
  lemma {:induction false} OverlayPlaces(before: map<int, int>, students: seq<int>, ids: seq<int>, n: nat)
    requires n <= |students| && n <= |ids| && Distinct(students)
    ensures var m := Overlay(before, students, ids, n);
      && (forall p :: 0 <= p < n ==> students[p] in m && m[students[p]] == ids[p])
      && (forall s :: s !in students[..n] ==> (s in m <==> s in before) && (s in m ==> m[s] == before[s]))
  {
    if n > 0 {
      OverlayPlaces(before, students, ids, n - 1);
      var m := Overlay(before, students, ids, n);
      assert students[..n] == students[..n - 1] + [students[n - 1]];
      forall p | 0 <= p < n - 1 ensures students[p] in m && m[students[p]] == ids[p] {
        assert students[p] != students[n - 1];
      }
    }
  }

  /** The positions of team `i`'s Phase-A quota all select team `i`. */
  lemma QuotaIds(newTeams: seq<Team>, womenPerTeam: nat, ranking: nat -> seq<int>, nbStudent: nat, i: nat)
    requires |newTeams| >= 1 && forall c: nat :: TeamIndices(ranking(c), |newTeams|)
    requires i < |newTeams|
    ensures var ids := SlotIds(newTeams, womenPerTeam, ranking, nbStudent);
      forall p :: i * womenPerTeam <= p < (i + 1) * womenPerTeam && p < nbStudent ==> ids[p] == newTeams[i].id
  {
    var ids := SlotIds(newTeams, womenPerTeam, ranking, nbStudent);
    forall p | i * womenPerTeam <= p < (i + 1) * womenPerTeam && p < nbStudent
      ensures ids[p] == newTeams[i].id
    {
      assert (i + 1) * womenPerTeam == i * womenPerTeam + womenPerTeam;
      PhaseAPosition(i, p - i * womenPerTeam, |newTeams|, womenPerTeam, ranking);
    }
  }

  /** The positions after Phase A select their Phase-B team. */
  lemma PhaseBIds(newTeams: seq<Team>, womenPerTeam: nat, ranking: nat -> seq<int>, nbStudent: nat)
    requires |newTeams| >= 1 && forall c: nat :: TeamIndices(ranking(c), |newTeams|)
    ensures var ids, k := SlotIds(newTeams, womenPerTeam, ranking, nbStudent), |newTeams| * womenPerTeam;
      forall p :: k <= p < nbStudent ==> ids[p] == newTeams[PhaseBTeam(p - k, |newTeams|, ranking)].id
  {
  }

  /** One step of a Phase-A quota: the woman or man at position `index` joins `team`, and
      past the last student nothing changes. */
  lemma PlaceInQuota(women: seq<int>, men: seq<int>, nbStudent: int, index: nat, team: int, ids: seq<int>,
                     before: map<int, int>)
    requires nbStudent == |women| + |men| && |ids| == nbStudent
    requires index < nbStudent ==> ids[index] == team
    ensures var students := women + men;
      var prev, next := Overlay(before, students, ids, Min(index, nbStudent)), Overlay(before, students, ids, Min(index + 1, nbStudent));
      && (index < |women| ==> next == prev[women[index] := team])
      && (|women| <= index < nbStudent ==> next == prev[men[index - |women|] := team])
      && (nbStudent <= index ==> next == prev)
  {
    var students := women + men;
    if index < nbStudent {
      assert Min(index, nbStudent) == index && Min(index + 1, nbStudent) == index + 1;
      if index < |women| {
        assert students[index] == women[index];
      } else {
        assert students[index] == men[index - |women|];
      }
    } else {
      assert Min(index + 1, nbStudent) == Min(index, nbStudent);
    }
  }

  /** The round and position of the next Phase-B step. */
  lemma NextSlot(x: int, n: int, q: int, r: int) returns (q': int, r': int)
    requires n > 0 && 0 <= q && 0 <= r < n && x == q * n + r + 1
    ensures x == q' * n + r' && 0 <= q' && 0 <= r' < n
    ensures r' > 0 ==> q' == q
    ensures r' == 0 ==> q' == q + 1
  {
    if r + 1 == n {
      assert (q + 1) * n == q * n + n;
      q', r' := q + 1, 0;
    } else {
      q', r' := q, r + 1;
    }
  }

  /** The ranking reads counted by the Phase-B loop, once it has stopped after `q` full
      rounds and `r` more positions. */
  lemma PhaseBReads(nbStudent: int, k: int, nbTeams: int, q: int, r: int)
    requires nbTeams >= 1 && 0 <= q && 0 <= r < nbTeams
    requires k < nbStudent ==> nbStudent - k == q * nbTeams + r
    requires nbStudent <= k ==> q == 0 && r == 0
    ensures RankingReads(nbStudent, k, nbTeams) == 1 + q + (if r > 0 then 1 else 0)
  {
    if k < nbStudent {
      CeilingDiv(nbStudent - k, nbTeams, q, r);
    }
  }

  /** `x` positions dealt over rounds of `n` make `ceil(x / n)` rounds. */
  lemma CeilingDiv(x: int, n: int, q: int, r: int)
    requires n > 0 && 0 <= r < n && x == q * n + r && x > 0
    ensures (x + n - 1) / n == q + (if r > 0 then 1 else 0)
  {
    if r == 0 {
      DivModUnique(x + n - 1, n, q, n - 1);
    } else {
      DivModUnique(x + n - 1, n, q + 1, r - 1);
    }
  }
}
