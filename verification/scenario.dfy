/**
 * The repository test's scenario: teams "teamA" and "teamB", members aged
 * 10, 20, 30 and 40, two per team, and what each query returns on it.
 */
module Scenario {
  import opened Wrappers
  import opened Schema
  import opened Entities
  import opened MemberSearchCondition
  import opened MemberRepositoryImpl
  import opened Relational

  /** The test's setUp, on objects: two teams, four members, each added to its team. */
  method SetUp() returns (teamA: Team, teamB: Team, m1: Member, m2: Member, m3: Member, m4: Member)
    ensures teamA.name == "teamA" && teamB.name == "teamB"
    ensures teamA.members == [m1, m2] && teamB.members == [m3, m4]
    ensures teamA.Valid() && teamB.Valid()
    ensures m1.age == 10 && m2.age == 20 && m3.age == 30 && m4.age == 40
    ensures m1.status == m2.status == m3.status == m4.status == Active
  {
    teamA := new Team.Of("teamA");
    teamB := new Team.Of("teamB");
    m1 := new Member.Of("member1", 10);
    m2 := new Member.Of("member2", 20);
    m3 := new Member.Of("member3", 30);
    m4 := new Member.Of("member4", 40);
    teamA.AddMember(m1);
    teamA.AddMember(m2);
    teamB.AddMember(m3);
    teamB.AddMember(m4);
  }

  /** Changing to the same team a second time changes nothing more. */
  method ChangeTeamTwice(m: Member, t: Team?)
    modifies m`team
    ensures m.team == t
  {
    m.ChangeTeam(t);
    var once := (m.username, m.age, m.team, m.status);
    m.ChangeTeam(t);
    assert (m.username, m.age, m.team, m.status) == once;
  }

  /** Adding the same member twice lists it twice. */
  method AddMemberTwice(team: Team, m: Member)
    modifies team`members, m`team
    ensures team.members == old(team.members) + [m, m]
    ensures old(team.Valid()) ==> team.Valid()
  {
    team.AddMember(m);
    team.AddMember(m);
  }

  const TeamAId := 1
  const TeamBId := 2

  /** The tables after setUp is saved: members 1..4, teams 1 ("teamA") and 2 ("teamB"). */
  function TestStore(): (s: Store)
    ensures Consistent(s)
  {
    Store(
      [ MemberRow(1, "member1", 10, Active, Some(TeamAId)),
        MemberRow(2, "member2", 20, Active, Some(TeamAId)),
        MemberRow(3, "member3", 30, Active, Some(TeamBId)),
        MemberRow(4, "member4", 40, Active, Some(TeamBId)) ],
      map[TeamAId := "teamA", TeamBId := "teamB"])
  }

  /** The left join of the test tables, row by row. */
  lemma TestJoin()
    ensures LeftJoin(TestStore()) ==
      [ JoinedRow(TestStore().members[0], Some(TeamRow(TeamAId, "teamA"))),
        JoinedRow(TestStore().members[1], Some(TeamRow(TeamAId, "teamA"))),
        JoinedRow(TestStore().members[2], Some(TeamRow(TeamBId, "teamB"))),
        JoinedRow(TestStore().members[3], Some(TeamRow(TeamBId, "teamB"))) ]
  {
  }

  lemma SearchByUsername()
    ensures var r := SearchByCondition(TestStore(), SearchRequest(Some("member1"), None, None, None, None));
            |r| == 1 && r[0].username == "member1"
  {
    var req := SearchRequest(Some("member1"), None, None, None, None);
    assert !IsWhitespace("member1"[0]);
    TestJoin();
    var rows := LeftJoin(TestStore());
    forall i | 0 <= i < 4 ensures Matches(req, rows[i]) <==> i == 0 {
      MatchesIffActiveFilters(req, rows[i]);
    }
    assert MatchingRows(TestStore(), req) == [rows[0]];
    assert SearchByCondition(TestStore(), req)[0] == Respond(rows[0]);
  }

  lemma SearchByAgeRange()
    ensures |SearchByCondition(TestStore(), SearchRequest(None, Some(20), Some(40), None, None))| == 3
  {
    var req := SearchRequest(None, Some(20), Some(40), None, None);
    TestJoin();
    var rows := LeftJoin(TestStore());
    forall i | 0 <= i < 4 ensures Matches(req, rows[i]) <==> i > 0 {
      MatchesIffActiveFilters(req, rows[i]);
    }
    var p := MatchesRequest(req);
    assert Filter(rows[3..], p) == [rows[3]] by { assert rows[3..][1..] == []; }
    assert Filter(rows[2..], p) == rows[2..] by { assert rows[2..][1..] == rows[3..]; }
    assert Filter(rows[1..], p) == rows[1..] by { assert rows[1..][1..] == rows[2..]; }
    assert Filter(rows, p) == rows[1..];
  }

  lemma SearchByTeamName()
    ensures var r := SearchByCondition(TestStore(), SearchRequest(None, None, None, Some("teamA"), None));
            |r| == 2 && forall x :: x in r ==> x.teamName == Some("teamA")
  {
    var req := SearchRequest(None, None, None, Some("teamA"), None);
    assert !IsWhitespace("teamA"[0]);
    TestJoin();
    var rows := LeftJoin(TestStore());
    forall i | 0 <= i < 4 ensures Matches(req, rows[i]) <==> i < 2 {
      MatchesIffActiveFilters(req, rows[i]);
    }
    assert MatchingRows(TestStore(), req) == rows[..2];
    var r := SearchByCondition(TestStore(), req);
    assert r == [Respond(rows[0]), Respond(rows[1])];
  }

  lemma SearchByStatus()
    ensures |SearchByCondition(TestStore(), SearchRequest(None, None, None, None, Some(Active)))| == 4
  {
  }

  lemma SearchByAllConditions()
    ensures var r := SearchByCondition(TestStore(), SearchRequest(None, Some(20), Some(30), Some("teamA"), Some(Active)));
            |r| == 1 && r[0].username == "member2"
  {
    var req := SearchRequest(None, Some(20), Some(30), Some("teamA"), Some(Active));
    assert !IsWhitespace("teamA"[0]);
    TestJoin();
    var rows := LeftJoin(TestStore());
    forall i | 0 <= i < 4 ensures Matches(req, rows[i]) <==> i == 1 {
      MatchesIffActiveFilters(req, rows[i]);
    }
    assert MatchingRows(TestStore(), req) == [rows[1]];
    assert SearchByCondition(TestStore(), req)[0] == Respond(rows[1]);
  }

  lemma JoinScenario()
    ensures |FindMembersWithTeam(TestStore())| == 4
  {
  }

  lemma SubqueryScenario()
    ensures FindMembersOlderThanAverage(TestStore()) == TestStore().members[2..]
  {
  }

  lemma PagingScenario()
    ensures FindMembersWithPaging(TestStore(), 0, 2).Ok?
    ensures |FindMembersWithPaging(TestStore(), 0, 2).value| == 2
  {
  }

  lemma SearchWithoutFilter()
    ensures |SearchByCondition(TestStore(), SearchRequest(None, None, None, None, None))| == 4
  {
  }

  lemma FirstPage()
    ensures var p := SearchByConditionWithPaging(TestStore(), SearchRequest(None, None, None, None, None), PageRequest(0, 2));
            |p.content| == 2 && p.totalElements == 4 && p.TotalPages() == 2
  {
    SearchWithoutFilter();
  }

  lemma SecondPage()
    ensures var p := SearchByConditionWithPaging(TestStore(), SearchRequest(None, None, None, None, None), PageRequest(1, 2));
            |p.content| == 2 && p.totalElements == 4 && p.TotalPages() == 2
  {
    SearchWithoutFilter();
  }

  lemma FilteredFirstPage()
    ensures var p := SearchByConditionWithPaging(TestStore(), SearchRequest(None, Some(20), Some(40), None, None), PageRequest(0, 2));
            |p.content| == 2 && p.totalElements == 3
  {
    SearchByAgeRange();
  }

  lemma CountScenario()
    ensures CountMembersByTeam(TestStore(), TeamAId) == 2
    ensures CountMembersByTeam(TestStore(), TeamBId) == 2
  {
  }
}
