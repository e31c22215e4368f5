/**
 * MemberRepositoryImpl: each query as a function over the store, giving the
 * rows the SQL statement built by the query DSL returns.
 */
module MemberRepositoryImpl {
  import opened Wrappers
  import opened Schema
  import opened MemberSearchCondition
  import opened Relational

  /** Whether a member's foreign key refers to a team of the store. */
  predicate TeamResolves(store: Store, m: MemberRow) {
    m.teamId.Some? && m.teamId.value in store.teams
  }

  /** The left join of member to team, for one member: the team is absent when the
      foreign key is null or refers to no team. */
  function Join(store: Store, m: MemberRow): JoinedRow {
    var team := if TeamResolves(store, m)
                then Some(TeamRow(m.teamId.value, store.teams[m.teamId.value]))
                else None;
    JoinedRow(m, team)
  }

  function JoinWith(store: Store): MemberRow -> JoinedRow {
    m => Join(store, m)
  }

  /** The left join of member to team: one joined row per member. */
  function LeftJoin(store: Store): seq<JoinedRow> {
    Map(store.members, JoinWith(store))
  }

  /** The projection of a joined row: the member's id, username and age, the joined
      team's id and name (absent without a team), and the status's name. */
  function Respond(row: JoinedRow): MemberTeamResponse {
    MemberTeamResponse(
      row.member.id, row.member.username, row.member.age,
      if row.team.Some? then Some(row.team.value.id) else None,
      if row.team.Some? then Some(row.team.value.name) else None,
      StatusName(row.member.status))
  }

  /** The response to a member's joined row carries the member's own columns and,
      exactly when its team exists, that team's id and name. */
  lemma RespondToJoin(store: Store, m: MemberRow)
    ensures var r := Respond(Join(store, m));
      && r.memberId == m.id && r.username == m.username && r.age == m.age
      && r.status == StatusName(m.status)
      && (r.teamId.Some? <==> m.teamId.Some? && m.teamId.value in store.teams)
      && (r.teamId.Some? ==> r.teamId == m.teamId && r.teamName == Some(store.teams[m.teamId.value]))
      && (r.teamId.None? ==> r.teamName.None?)
  {
  }

  function RowMemberId(row: JoinedRow): int { row.member.id }

  function MatchesRequest(req: SearchRequest): JoinedRow -> bool {
    row => Matches(req, row)
  }

  /** The joined rows that pass the condition built from the request. */
  function MatchingRows(store: Store, req: SearchRequest): seq<JoinedRow> {
    Filter(LeftJoin(store), MatchesRequest(req))
  }

  /** searchByCondition: no ORDER BY, so only the collection of rows is meaningful. */
  function SearchByCondition(store: Store, req: SearchRequest): seq<MemberTeamResponse> {
    Map(MatchingRows(store, req), Respond)
  }

  /** A joined row belongs to the left join exactly when it is some member's join. */
  lemma InLeftJoin(store: Store, row: JoinedRow)
    ensures row in LeftJoin(store) <==> exists m :: m in store.members && row == Join(store, m)
  {
    var rows := LeftJoin(store);
    if row in rows {
      var i :| 0 <= i < |rows| && rows[i] == row;
      assert store.members[i] in store.members;
    }
    if exists m :: m in store.members && row == Join(store, m) {
      var m :| m in store.members && row == Join(store, m);
      var i :| 0 <= i < |store.members| && store.members[i] == m;
      assert rows[i] == row;
    }
  }

  /** Every response is the projection of a member whose joined row matches. */
  lemma ResponseOfMatch(store: Store, req: SearchRequest, x: MemberTeamResponse)
    requires x in SearchByCondition(store, req)
    ensures exists m :: m in store.members && Matches(req, Join(store, m)) && x == Respond(Join(store, m))
  {
    var rows := MatchingRows(store, req);
    var r := SearchByCondition(store, req);
    var i :| 0 <= i < |r| && r[i] == x;
    assert r[i] == Respond(rows[i]);
    assert rows[i] in rows;
    InLeftJoin(store, rows[i]);
    var m :| m in store.members && rows[i] == Join(store, m);
    assert Matches(req, Join(store, m));
  }

  /** Every member whose joined row matches has its projection among the responses. */
  lemma MatchHasResponse(store: Store, req: SearchRequest, m: MemberRow)
    requires m in store.members && Matches(req, Join(store, m))
    ensures Respond(Join(store, m)) in SearchByCondition(store, req)
  {
    var rows := MatchingRows(store, req);
    var r := SearchByCondition(store, req);
    InLeftJoin(store, Join(store, m));
    assert MatchesRequest(req)(Join(store, m));
    assert Join(store, m) in rows;
    var i :| 0 <= i < |rows| && rows[i] == Join(store, m);
    assert r[i] == Respond(rows[i]);
  }

  /** The responses are exactly the projections of the members whose joined row matches. */
  lemma SearchByConditionMembers(store: Store, req: SearchRequest)
    ensures forall x :: x in SearchByCondition(store, req) <==>
              exists m :: m in store.members && Matches(req, Join(store, m)) && x == Respond(Join(store, m))
  {
    forall x ensures x in SearchByCondition(store, req) <==>
                     exists m :: m in store.members && Matches(req, Join(store, m)) && x == Respond(Join(store, m)) {
      if x in SearchByCondition(store, req) {
        ResponseOfMatch(store, req, x);
      }
      if exists m :: m in store.members && Matches(req, Join(store, m)) && x == Respond(Join(store, m)) {
        var m :| m in store.members && Matches(req, Join(store, m)) && x == Respond(Join(store, m));
        MatchHasResponse(store, req, m);
      }
    }
  }

  /** With unique member ids, no member id occurs twice among the responses. */
  lemma SearchByConditionDistinct(store: Store, req: SearchRequest)
    requires UniqueIds(store.members)
    ensures DistinctBy(SearchByCondition(store, req), MemberIdOf)
  {
    var rows := MatchingRows(store, req);
    var r := SearchByCondition(store, req);
    var joined := LeftJoin(store);
    var rowId := RowMemberId;
    assert DistinctBy(joined, rowId) by {
      forall i, j | 0 <= i < j < |joined| ensures rowId(joined[i]) != rowId(joined[j]) {
        assert joined[i].member == store.members[i] && joined[j].member == store.members[j];
      }
    }
    FilterKeepsDistinct(joined, MatchesRequest(req), rowId);
    forall i, j | 0 <= i < j < |r| ensures MemberIdOf(r[i]) != MemberIdOf(r[j]) {
      assert r[i] == Respond(rows[i]) && r[j] == Respond(rows[j]);
    }
  }

  /**
   * searchByCondition returns the response of every member whose left-joined
   * row passes the condition and nothing else, each member once; a member
   * without a team is kept, with no team id and no team name.
   */
  lemma SearchByConditionSpec(store: Store, req: SearchRequest)
    ensures forall x :: x in SearchByCondition(store, req) <==>
              exists m :: m in store.members && Matches(req, Join(store, m)) && x == Respond(Join(store, m))
    ensures forall m :: m in store.members && m.teamId.None? && Matches(req, Join(store, m)) ==>
              MemberTeamResponse(m.id, m.username, m.age, None, None, StatusName(m.status)) in SearchByCondition(store, req)
    ensures UniqueIds(store.members) ==> DistinctBy(SearchByCondition(store, req), MemberIdOf)
  {
    SearchByConditionMembers(store, req);
    forall m | m in store.members && m.teamId.None? && Matches(req, Join(store, m))
      ensures MemberTeamResponse(m.id, m.username, m.age, None, None, StatusName(m.status)) in SearchByCondition(store, req)
    {
      assert Respond(Join(store, m)) == MemberTeamResponse(m.id, m.username, m.age, None, None, StatusName(m.status));
    }
    if UniqueIds(store.members) {
      SearchByConditionDistinct(store, req);
    }
  }


  /** The count query: COUNT over the same join and condition. */
  function CountByCondition(store: Store, req: SearchRequest): nat {
    |MatchingRows(store, req)|
  }

  /** Whether a member's joined row passes the built condition. */
  function MatchesJoined(store: Store, req: SearchRequest): MemberRow -> bool {
    (m: MemberRow) => Matches(req, Join(store, m))
  }

  /** The count query counts the rows the content query returns: with unique ids,
      the number of members whose joined row matches. */
  lemma CountByConditionSpec(store: Store, req: SearchRequest)
    ensures CountByCondition(store, req) == |SearchByCondition(store, req)|
    ensures UniqueIds(store.members) ==>
              CountByCondition(store, req) == |set m | m in store.members && Matches(req, Join(store, m))|
  {
    if UniqueIds(store.members) {
      FilterMap(store.members, JoinWith(store), MatchesRequest(req), MatchesJoined(store, req));
      assert DistinctBy(store.members, IdOf);
      var kept := Filter(store.members, MatchesJoined(store, req));
      assert MatchingRows(store, req) == Map(kept, JoinWith(store));
      FilterCardinality(store.members, MatchesJoined(store, req), IdOf,
                        set m | m in store.members && Matches(req, Join(store, m)));
    }
  }

  /** Spring's PageRequest: a zero-based page number and a page size. */
  datatype PageRequest = PageRequest(pageNumber: nat, pageSize: nat) {
    /** Pageable.getOffset */
    function Offset(): nat { pageNumber * pageSize }
  }

  /** What a PageImpl tells its reader: the content, the request and the total. */
  datatype Page<T> = Page(content: seq<T>, pageable: PageRequest, totalElements: nat) {
    /** PageImpl.getTotalPages: 1 for a zero size, otherwise the total divided by the size, rounded up. */
    function TotalPages(): (n: nat)
      ensures pageable.pageSize > 0 ==> n * pageable.pageSize >= totalElements
      ensures pageable.pageSize > 0 && n > 0 ==> (n - 1) * pageable.pageSize < totalElements
    {
      if pageable.pageSize == 0 then 1
      else
        var s := pageable.pageSize;
        var q := (totalElements + s - 1) / s;
        assert totalElements + s - 1 == q * s + (totalElements + s - 1) % s;
        assert (q - 1) * s == q * s - s;
        q
    }

    /** The total PageImpl reports: when the content is non-empty and the page reaches
        past the given total, the offset plus the content size; otherwise the given total. */
    function ReportedTotal(): nat {
      if |content| > 0 && pageable.Offset() + pageable.pageSize > totalElements
      then pageable.Offset() + |content|
      else totalElements
    }
  }

  /** The results of searchByCondition, ordered by member id descending. */
  function SortedResults(store: Store, req: SearchRequest): seq<MemberTeamResponse> {
    SortDesc(SearchByCondition(store, req), MemberIdOf)
  }

  /** searchByConditionWithPaging: the content query and the count query, paired in a page. */
  function SearchByConditionWithPaging(store: Store, req: SearchRequest, pageable: PageRequest): Page<MemberTeamResponse> {
    var content := Window(SortedResults(store, req), pageable.Offset(), pageable.pageSize);
    Page(content, pageable, CountByCondition(store, req))
  }

  /**
   * The page's content is the matching rows by member id descending, from
   * offset pageNumber * pageSize, at most pageSize of them; the total is the
   * number of all matching rows, whatever the page.
   */
  lemma SearchByConditionWithPagingSpec(store: Store, req: SearchRequest, pageable: PageRequest)
    ensures var r := SearchByConditionWithPaging(store, req, pageable);
      && r.pageable == pageable
      && r.totalElements == |SearchByCondition(store, req)|
      && |r.content| == Min(pageable.pageSize, Max(0, r.totalElements - pageable.Offset()))
      && |r.content| <= r.totalElements
      && SortedDesc(r.content, MemberIdOf)
      && forall x :: x in r.content ==> x in SearchByCondition(store, req)
  {
    var sorted := SortedResults(store, req);
    var content := SearchByConditionWithPaging(store, req, pageable).content;
    WindowSpec(sorted, pageable.Offset(), pageable.pageSize);
    forall x | x in content ensures x in SearchByCondition(store, req) {
      assert x in multiset(sorted);
    }
  }

  /**
   * The page's content does not depend on how the sort is carried out: for
   * any descending order of the matching rows, the page is that order's window.
   */
  lemma PagedContentIsWindowOfAnyDescendingOrder(store: Store, req: SearchRequest, pageable: PageRequest, order: seq<MemberTeamResponse>)
    requires UniqueIds(store.members)
    requires multiset(order) == multiset(SearchByCondition(store, req)) && SortedDesc(order, MemberIdOf)
    ensures SearchByConditionWithPaging(store, req, pageable).content == Window(order, pageable.Offset(), pageable.pageSize)
  {
    var sorted := SortedResults(store, req);
    SearchByConditionSpec(store, req);
    assert DistinctBy(sorted, MemberIdOf) by {
      DistinctByPermutation(SearchByCondition(store, req), sorted, MemberIdOf);
    }
    SortedDescUnique(sorted, order, MemberIdOf);
  }

  /** A permutation of a sequence with distinct keys has distinct keys. */
  lemma DistinctByPermutation<T>(a: seq<T>, b: seq<T>, key: T -> int)
    requires DistinctBy(a, key) && multiset(a) == multiset(b)
    ensures DistinctBy(b, key)
  {
    forall i, j | 0 <= i < j < |b| ensures key(b[i]) != key(b[j]) {
      assert b[i] in multiset(a) && b[j] in multiset(a);
      var k :| 0 <= k < |a| && a[k] == b[i];
      var l :| 0 <= l < |a| && a[l] == b[j];
      MultiplicityOfDistinct(a, key, k);
      assert b == b[..i] + [b[i]] + b[i+1..j] + [b[j]] + b[j+1..];
      assert multiset(b)[b[i]] >= 1 + (if b[j] == b[i] then 1 else 0);
      assert b[i] != b[j];
      assert k != l;
    }
  }

  /** In a sequence with distinct keys every row occurs once. */
  lemma {:induction false} MultiplicityOfDistinct<T>(a: seq<T>, key: T -> int, k: nat)
    requires DistinctBy(a, key) && k < |a|
    ensures multiset(a)[a[k]] == 1
  {
    assert a == a[..k] + [a[k]] + a[k+1..];
    forall i | 0 <= i < k ensures a[i] != a[k] { assert key(a[i]) != key(a[k]); }
    forall i | k + 1 <= i < |a| ensures a[i] != a[k] { assert key(a[k]) != key(a[i]); }
    assert a[k] !in a[..k];
    assert a[k] !in a[k+1..];
  }

  /** The content of each page of size `size`, by page number. */
  function PageContents(store: Store, req: SearchRequest, size: nat): nat -> seq<MemberTeamResponse> {
    (p: nat) => SearchByConditionWithPaging(store, req, PageRequest(p, size)).content
  }

  /** Reading every page in turn yields every matching row once, by member id descending,
      so the page sizes add up to the total. */
  lemma PagesCoverAllResults(store: Store, req: SearchRequest, size: nat)
    requires size > 0
    ensures var pages := SearchByConditionWithPaging(store, req, PageRequest(0, size)).TotalPages();
            Concat(PageContents(store, req, size), pages) == SortedResults(store, req)
            && |Concat(PageContents(store, req, size), pages)| == CountByCondition(store, req)
  {
    var pages := SearchByConditionWithPaging(store, req, PageRequest(0, size)).TotalPages();
    var sorted := SortedResults(store, req);
    forall p: nat | p < pages ensures PageContents(store, req, size)(p) == Window(sorted, PageStart(p, size), size) {
      PageStartIsProduct(p, size);
      assert PageRequest(p, size).Offset() == PageStart(p, size);
    }
    ConcatOfWindows(PageContents(store, req, size), sorted, size, pages);
    PageStartIsProduct(pages, size);
    assert sorted[..Min(PageStart(pages, size), |sorted|)] == sorted;
  }

  /** PageImpl's correction of the total never changes the count query's value,
      since the content and the count come from the same rows. */
  lemma ReportedTotalIsCount(store: Store, req: SearchRequest, pageable: PageRequest)
    ensures SearchByConditionWithPaging(store, req, pageable).ReportedTotal() == CountByCondition(store, req)
  {
    SearchByConditionWithPagingSpec(store, req, pageable);
  }

  /** Errors the query DSL raises before running a statement. */
  datatype QueryError = NegativeOffsetOrLimit

  /**
   * findMembersWithPaging: every member by id descending, skipping `offset`
   * rows and keeping at most `limit`; a negative offset or limit is refused.
   */
  function FindMembersWithPaging(store: Store, offset: int, limit: int): (r: Result<seq<MemberRow>, QueryError>)
    ensures r.Ok? <==> offset >= 0 && limit >= 0
    ensures r.Ok? ==> |r.value| == Min(limit, Max(0, |store.members| - offset))
    ensures r.Ok? ==> SortedDesc(r.value, IdOf)
    ensures r.Ok? ==> forall m :: m in r.value ==> m in store.members
  {
    if offset < 0 || limit < 0 then Err(NegativeOffsetOrLimit)
    else
      var sorted := SortDesc(store.members, IdOf);
      var page := Window(sorted, offset, limit);
      WindowSpec(sorted, offset, limit);
      assert forall m :: m in page ==> m in multiset(sorted);
      Ok(page)
  }

  /** The listing skips exactly `offset` rows of the descending order of all members. */
  lemma FindMembersWithPagingIsWindow(store: Store, offset: nat, limit: nat, order: seq<MemberRow>)
    requires UniqueIds(store.members)
    requires multiset(order) == multiset(store.members) && SortedDesc(order, IdOf)
    ensures FindMembersWithPaging(store, offset, limit) == Ok(Window(order, offset, limit))
  {
    var sorted := SortDesc(store.members, IdOf);
    assert DistinctBy(store.members, IdOf);
    DistinctByPermutation(store.members, sorted, IdOf);
    SortedDescUnique(sorted, order, IdOf);
  }

  /** A query that only drops members keeps their ids unique. */
  lemma FilterKeepsUniqueIds(members: seq<MemberRow>, p: MemberRow -> bool)
    ensures UniqueIds(members) ==> UniqueIds(Filter(members, p))
  {
    if UniqueIds(members) {
      var r := Filter(members, p);
      assert DistinctBy(members, IdOf);
      FilterKeepsDistinct(members, p, IdOf);
      forall i, j | 0 <= i < j < |r| ensures r[i].id != r[j].id {
        assert IdOf(r[i]) != IdOf(r[j]);
      }
    }
  }

  function HasTeam(store: Store): MemberRow -> bool {
    (m: MemberRow) => TeamResolves(store, m)
  }

  /** findMembersWithTeam: the inner join keeps the members whose team exists, each once. */
  function FindMembersWithTeam(store: Store): (r: seq<MemberRow>)
    ensures forall m :: m in r <==> m in store.members && m.teamId.Some? && m.teamId.value in store.teams
    ensures Consistent(store) ==> forall m :: m in r <==> m in store.members && m.teamId.Some?
    ensures UniqueIds(store.members) ==> UniqueIds(r)
  {
    FilterKeepsUniqueIds(store.members, HasTeam(store));
    Filter(store.members, HasTeam(store))
  }

  /** The sum of the ages of the members. */
  function SumAges(members: seq<MemberRow>): int {
    if members == [] then 0 else members[0].age + SumAges(members[1..])
  }

  /** The arithmetic mean of the ages, which the database average approximates in floating point. */
  function MeanAge(members: seq<MemberRow>): real
    requires members != []
  {
    (SumAges(members) as real) / (|members| as real)
  }

  /** Age above the mean, multiplied out by the number of members n: age * n > sum. */
  function OlderThan(n: int, sum: int): MemberRow -> bool {
    (m: MemberRow) => m.age * n > sum
  }

  /** findMembersOlderThanAverage: the members older than the mean age of all members. */
  function FindMembersOlderThanAverage(store: Store): (r: seq<MemberRow>)
    ensures forall m :: m in r <==> m in store.members && m.age * |store.members| > SumAges(store.members)
    ensures UniqueIds(store.members) ==> UniqueIds(r)
  {
    FilterKeepsUniqueIds(store.members, OlderThan(|store.members|, SumAges(store.members)));
    Filter(store.members, OlderThan(|store.members|, SumAges(store.members)))
  }

  /** For a positive count n, `age * n > sum` is `age > sum / n` over the reals. */
  lemma AboveMean(age: int, n: int, sum: int)
    requires n > 0
    ensures age * n > sum <==> (age as real) > (sum as real) / (n as real)
  {
    var nr := n as real;
    var mean := (sum as real) / nr;
    assert (age * n) as real == (age as real) * nr;
    assert mean * nr == sum as real;
    if (age as real) > mean {
      assert (age as real) * nr > mean * nr;
    } else {
      assert (age as real) * nr <= mean * nr;
    }
  }

  /** The multiplied-out comparison is the comparison with the exact mean. */
  lemma OlderThanAverageIsAboveMean(store: Store)
    ensures forall m :: m in FindMembersOlderThanAverage(store) <==>
              m in store.members && (m.age as real) > MeanAge(store.members)
  {
    var n := |store.members|;
    forall m | m in store.members
      ensures m.age * n > SumAges(store.members) <==> (m.age as real) > MeanAge(store.members)
    {
      AboveMean(m.age, n, SumAges(store.members));
    }
  }

  function OfTeam(teamId: int): MemberRow -> bool {
    (m: MemberRow) => m.teamId == Some(teamId)
  }

  function NotOfTeam(teamId: int): MemberRow -> bool {
    (m: MemberRow) => m.teamId != Some(teamId)
  }

  /** countMembersByTeam: the number of members whose team_id is `teamId`. */
  function CountMembersByTeam(store: Store, teamId: int): (r: nat)
    ensures r <= |store.members|
    ensures r == 0 <==> forall m :: m in store.members ==> m.teamId != Some(teamId)
    ensures UniqueIds(store.members) ==> r == |set m | m in store.members && m.teamId == Some(teamId)|
  {
    var members := Filter(store.members, OfTeam(teamId));
    assert |members| > 0 ==> members[0] in members;
    assert forall m :: m in store.members && m.teamId == Some(teamId) ==> m in members;
    if UniqueIds(store.members) then
      assert DistinctBy(store.members, IdOf);
      FilterCardinality(store.members, OfTeam(teamId), IdOf, set m | m in store.members && m.teamId == Some(teamId));
      |members|
    else |members|
  }

  /** The members counted for a team and the members of other teams or of none make up the table. */
  lemma CountMembersByTeamPartition(store: Store, teamId: int)
    ensures CountMembersByTeam(store, teamId) + |Filter(store.members, NotOfTeam(teamId))| == |store.members|
  {
    FilterSplits(store.members, OfTeam(teamId), NotOfTeam(teamId));
  }
}
