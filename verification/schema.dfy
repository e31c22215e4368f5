/**
 * The two tables of the schema (Member, Team) as rows, the filter request and
 * the flattened response record.
 */
module Schema {
  import opened Wrappers

  /** Member status, persisted by name (EnumType.STRING). */
  datatype MemberStatus = Active | Inactive

  /** The status's name, as the response carries it. */
  function StatusName(s: MemberStatus): string {
    match s
    case Active => "ACTIVE"
    case Inactive => "INACTIVE"
  }

  /** A row of the Member table; `teamId` is the nullable team_id foreign key. */
  datatype MemberRow = MemberRow(id: int, username: string, age: int, status: MemberStatus, teamId: Option<int>)

  /** A row of the Team table. */
  datatype TeamRow = TeamRow(id: int, name: string)

  /** The store: the Member table and the Team table (team id to name). */
  datatype Store = Store(members: seq<MemberRow>, teams: map<int, string>)

  function IdOf(m: MemberRow): int { m.id }

  /** Member ids are primary keys: no two rows share one. */
  predicate UniqueIds(members: seq<MemberRow>) {
    forall i, j :: 0 <= i < j < |members| ==> members[i].id != members[j].id
  }

  /** Primary keys are unique and every team_id refers to an existing team. */
  predicate Consistent(store: Store) {
    && UniqueIds(store.members)
    && forall m :: m in store.members && m.teamId.Some? ==> m.teamId.value in store.teams
  }

  /** A member row left-joined with its team; `team` is absent when the join finds none. */
  datatype JoinedRow = JoinedRow(member: MemberRow, team: Option<TeamRow>)

  /** MemberSearchRequest: five independently optional filters. */
  datatype SearchRequest = SearchRequest(
    username: Option<string>,
    ageGoe: Option<int>,
    ageLoe: Option<int>,
    teamName: Option<string>,
    status: Option<MemberStatus>)

  /** MemberTeamResponse: the flattened projection of a joined row. */
  datatype MemberTeamResponse = MemberTeamResponse(
    memberId: int,
    username: string,
    age: int,
    teamId: Option<int>,
    teamName: Option<string>,
    status: string)

  function MemberIdOf(r: MemberTeamResponse): int { r.memberId }
}
