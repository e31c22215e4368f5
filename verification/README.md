# querydsl-study in Dafny

A model of a small member/team query service. The service has two tables:
Member (id, username, age, status, nullable team_id) and Team (id, name). On
top of them it offers:

- a dynamic filter builder, `MemberSearchCondition.buildCondition`, that turns
  a request with five optional fields into one conjunction of per-field checks,
  skipping the fields that are null or blank;
- six repository queries in `MemberRepositoryImpl`: left-join search with a
  projection, the same search paged with a separate count query, an inner join,
  an average-age subquery, an ordered offset/limit listing and a count by team;
- the `Member` and `Team` entities, where `Team.addMember` appends to the
  team's list and points the member back at the team.

The files:

- `wrappers.dfy`: `Option` (Java's nullable values) and `Result`.
- `schema.dfy`: the rows of both tables, the store, the left-joined row, the
  request (`MemberSearchRequest`) and the response (`MemberTeamResponse`).
- `search_condition.dfy`: the filter builder. QueryDSL's `allOf` is modelled
  as the library defines it: it folds the non-null parts with `and`, and it
  yields null when every part is null, in which case the query adds no
  clause. The meaning of the result is proved to be the conjunction of the
  active checks.
- `relational.dfy`: the row-level meaning of the clauses the queries use.
  These are WHERE (`Filter`), the projection (`Map`), ORDER BY ... DESC
  (`SortDesc`) and OFFSET/LIMIT (`Window`).
- `repository.dfy`: each repository method as a function over the store.
- `entities.dfy`: `Member` and `Team` as classes with in-place updates.
- `scenario.dfy`: the repository test's fixture and its expected results.

Java's `String.isBlank` is modelled with `Character.isWhitespace` written out
as a predicate over code points. `avg()` is replaced by exact arithmetic: for
n members, `age * n > sum` is used, and it is proved equal to comparing the
age with the exact (real) mean.

## Model

| member | source | states |
|---|---|---|
| `MemberSearchCondition.WhitespaceExamples` | src/main/java/com/querydslstudy/repository/MemberSearchCondition.java:25 | the whitespace isBlank skips includes space, tab, line feed and the ideographic space, and excludes the no-break spaces, the zero-width space and letters |
| `MemberSearchCondition.FirstNonWhitespace` | src/main/java/com/querydslstudy/repository/MemberSearchCondition.java:25 | the scan isBlank performs stops at the first non-whitespace character: everything before it is whitespace and it is not |
| `MemberSearchCondition.BlankIffScanReachesEnd` | src/main/java/com/querydslstudy/repository/MemberSearchCondition.java:39 | a string is blank exactly when that scan reaches its end, the empty string included |
| `MemberSearchCondition.UsernameEq` | src/main/java/com/querydslstudy/repository/MemberSearchCondition.java:24-28 | a username check exists iff the username is non-null and not blank, and it is exact equality |
| `MemberSearchCondition.AgeGoe` | src/main/java/com/querydslstudy/repository/MemberSearchCondition.java:30-32 | a lower bound check exists iff ageGoe is non-null, and it keeps rows with age >= ageGoe |
| `MemberSearchCondition.AgeLoe` | src/main/java/com/querydslstudy/repository/MemberSearchCondition.java:34-36 | an upper bound check exists iff ageLoe is non-null, and it keeps rows with age <= ageLoe |
| `MemberSearchCondition.TeamNameEq` | src/main/java/com/querydslstudy/repository/MemberSearchCondition.java:38-42 | a team name check exists iff the name is non-null and not blank, and it keeps exactly the rows whose joined team has that name |
| `MemberSearchCondition.StatusEq` | src/main/java/com/querydslstudy/repository/MemberSearchCondition.java:44-46 | a status check exists iff status is non-null, and it is exact equality |
| `MemberSearchCondition.AndNullable` | src/main/java/com/querydslstudy/repository/MemberSearchCondition.java:15-21 | one step of allOf: the combination is null iff both sides are, and keeps a row iff both sides (a null side keeping every row) do |
| `MemberSearchCondition.AllOfFromMeaning` | src/main/java/com/querydslstudy/repository/MemberSearchCondition.java:15-21 | allOf (`AllOf`, folding `AndNullable` from a null start in `AllOfFrom`) keeps a row iff every non-null part keeps it |
| `MemberSearchCondition.AllOfFromIsNull` | src/main/java/com/querydslstudy/repository/MemberSearchCondition.java:15-21 | allOf is null (no WHERE clause) iff every part is null |
| `MemberSearchCondition.BuildCondition` | src/main/java/com/querydslstudy/repository/MemberSearchCondition.java:14-22 | the built condition is null (no WHERE clause) exactly when no filter is active |
| `MemberSearchCondition.MatchesIffActiveFilters` | src/main/java/com/querydslstudy/repository/MemberSearchCondition.java:14-46 | `Matches` (a joined row passing the condition built from the request) holds iff the row passes every active per-field check; inactive fields impose nothing |
| `MemberSearchCondition.NoFilterMatchesEverything` | src/main/java/com/querydslstudy/repository/MemberSearchCondition.java:14-22 | with every field null or blank, every row matches |
| `MemberSearchCondition.UsernameFilter` | src/main/java/com/querydslstudy/repository/MemberSearchCondition.java:24-28 | a null or blank username is ignored; otherwise matching demands the exact username |
| `MemberSearchCondition.AgeBoundsInclusive` | src/main/java/com/querydslstudy/repository/MemberSearchCondition.java:30-36 | a matching row's age lies within both bounds; a row whose age equals both bounds matches iff it matches with the age bounds dropped, so the ends are included |
| `MemberSearchCondition.TeamNameFilter` | src/main/java/com/querydslstudy/repository/MemberSearchCondition.java:38-42 | with an active team name a member without a team never matches and a matching row's team has that name; a blank or null name is ignored |
| `MemberSearchCondition.StatusFilter` | src/main/java/com/querydslstudy/repository/MemberSearchCondition.java:44-46 | a non-null status demands equality; a null status is ignored |
| `MemberSearchCondition.NarrowingIsMonotonic` | src/main/java/com/querydslstudy/repository/MemberSearchCondition.java:14-46 | activating more filters, keeping the active ones, never admits a row that was excluded |
| `MemberSearchCondition.EmptyAgeRange` | src/main/java/com/querydslstudy/repository/MemberSearchCondition.java:30-36 | when ageGoe > ageLoe no row matches |
| `Relational.Filter` | src/main/java/com/querydslstudy/repository/MemberRepositoryImpl.java:43 | a WHERE clause keeps exactly the rows that satisfy the condition and no more rows than there are |
| `Relational.FilterMultiplicity` | src/main/java/com/querydslstudy/repository/MemberRepositoryImpl.java:43 | a WHERE clause keeps each satisfying row as many times as it occurs and drops every other row |
| `Relational.Map` | src/main/java/com/querydslstudy/repository/MemberRepositoryImpl.java:34-40 | the projection has one row per input row, the i-th being the i-th input row projected |
| `Relational.SortDesc` | src/main/java/com/querydslstudy/repository/MemberRepositoryImpl.java:83 | ORDER BY ... DESC yields a permutation of the rows whose keys never increase |
| `Relational.SortedDescUnique` | src/main/java/com/querydslstudy/repository/MemberRepositoryImpl.java:107 | with distinct keys, any two descending orders of the same rows are equal |
| `Relational.WindowSpec` | src/main/java/com/querydslstudy/repository/MemberRepositoryImpl.java:84-85 | offset then limit keeps min(limit, max(0, n - offset)) rows, the i-th being row offset + i |
| `Relational.ConcatOfWindows` | src/main/java/com/querydslstudy/repository/MemberRepositoryImpl.java:108-109 | k pages, each the window of size s at its page's start, read one after another are the rows before page k starts |
| `MemberRepositoryImpl.InLeftJoin` | src/main/java/com/querydslstudy/repository/MemberRepositoryImpl.java:41-42 | the left join has a row for every member and only those |
| `MemberRepositoryImpl.RespondToJoin` | src/main/java/com/querydslstudy/repository/MemberRepositoryImpl.java:34-40 | the response to a member's joined row carries the member's id, username, age and status name, and its team's id and name exactly when that team exists |
| `MemberRepositoryImpl.ResponseOfMatch` | src/main/java/com/querydslstudy/repository/MemberRepositoryImpl.java:33-44 | every response comes from a member whose joined row matches |
| `MemberRepositoryImpl.MatchHasResponse` | src/main/java/com/querydslstudy/repository/MemberRepositoryImpl.java:33-44 | every member whose joined row matches has its response in the result |
| `MemberRepositoryImpl.SearchByConditionMembers` | src/main/java/com/querydslstudy/repository/MemberRepositoryImpl.java:33-44 | the responses are exactly the responses of the members whose joined row matches |
| `MemberRepositoryImpl.SearchByConditionDistinct` | src/main/java/com/querydslstudy/repository/MemberRepositoryImpl.java:33-44 | with unique member ids no member id occurs twice in the result |
| `MemberRepositoryImpl.SearchByConditionSpec` | src/main/java/com/querydslstudy/repository/MemberRepositoryImpl.java:29-48 | the result is exactly the responses of the members whose joined row matches; team-less members appear with no team id and no team name; with unique ids each member appears once |
| `MemberRepositoryImpl.SearchByConditionWithPagingSpec` | src/main/java/com/querydslstudy/repository/MemberRepositoryImpl.java:92-123 | content is sorted by member id descending, holds min(size, max(0, total - page*size)) matching responses, and total is the number of all matches whatever the page |
| `MemberRepositoryImpl.PagedContentIsWindowOfAnyDescendingOrder` | src/main/java/com/querydslstudy/repository/MemberRepositoryImpl.java:96-110 | the content is the window at page*size of the matching rows in member id descending order, whatever the sort |
| `MemberRepositoryImpl.Page.TotalPages` | src/main/java/com/querydslstudy/repository/MemberRepositoryImpl.java:122 | for a positive size the page count is the total divided by the size, rounded up |
| `MemberRepositoryImpl.CountByConditionSpec` | src/main/java/com/querydslstudy/repository/MemberRepositoryImpl.java:112-117 | the count query counts the rows the content query returns; with unique ids, the number of members whose joined row matches |
| `MemberRepositoryImpl.ReportedTotalIsCount` | src/main/java/com/querydslstudy/repository/MemberRepositoryImpl.java:122 | the total PageImpl reports after its own correction for a short last page is the count query's value |
| `MemberRepositoryImpl.PagesCoverAllResults` | src/main/java/com/querydslstudy/repository/MemberRepositoryImpl.java:96-122 | reading all pages in turn yields every match once in id descending order, so the page sizes add up to the total |
| `MemberRepositoryImpl.FindMembersWithPaging` | src/main/java/com/querydslstudy/repository/MemberRepositoryImpl.java:79-89 | a negative offset or limit is refused; otherwise min(limit, max(0, n - offset)) members by id descending |
| `MemberRepositoryImpl.FindMembersWithPagingIsWindow` | src/main/java/com/querydslstudy/repository/MemberRepositoryImpl.java:81-86 | the listing is the members in id descending order with the first offset rows skipped, at most limit of them |
| `MemberRepositoryImpl.FindMembersWithTeam` | src/main/java/com/querydslstudy/repository/MemberRepositoryImpl.java:51-60 | exactly the members whose team exists, each once when ids are unique |
| `MemberRepositoryImpl.FindMembersOlderThanAverage` | src/main/java/com/querydslstudy/repository/MemberRepositoryImpl.java:63-76 | exactly the members with age * n > sum of all ages, each once when ids are unique |
| `MemberRepositoryImpl.OlderThanAverageIsAboveMean` | src/main/java/com/querydslstudy/repository/MemberRepositoryImpl.java:68-72 | exactly the members whose age is strictly above the exact mean age of all members |
| `MemberRepositoryImpl.CountMembersByTeam` | src/main/java/com/querydslstudy/repository/MemberRepositoryImpl.java:126-135 | with unique ids, exactly the number of members whose team id is the given one; in any case at most the number of members, and 0 exactly when no member has that team id |
| `MemberRepositoryImpl.CountMembersByTeamPartition` | src/main/java/com/querydslstudy/repository/MemberRepositoryImpl.java:128-132 | the members counted for a team plus all other members make up the whole table |
| `Entities.Member.Of` | src/main/java/com/querydslstudy/entity/Member.java:27-35 | a new member keeps username and age, is ACTIVE and has no team |
| `Entities.Member.ChangeTeam` | src/main/java/com/querydslstudy/entity/Member.java:37-39 | the team becomes the given one and username, age and status are unchanged |
| `Entities.Team.Of` | src/main/java/com/querydslstudy/entity/Team.java:23-31 | a new team has the given name and an empty member list |
| `Entities.Team.AddMember` | src/main/java/com/querydslstudy/entity/Team.java:33-36 | the list becomes the old list plus the member, the member points to this team, the name and the member's other fields stay, and the back-reference invariant is kept |
| `Scenario.ChangeTeamTwice` | src/main/java/com/querydslstudy/entity/Member.java:37-39 | changing to the same team twice leaves the member as changing once does |
| `Scenario.AddMemberTwice` | src/main/java/com/querydslstudy/entity/Team.java:33-36 | adding the same member twice lists it twice |
| `Scenario.SetUp` | src/test/java/com/querydslstudy/repository/MemberRepositoryTest.java:34-59 | the fixture built with the entity methods: teamA lists members 1 and 2, teamB members 3 and 4, all pointing back, all ACTIVE |
| `Scenario.TestStore` | src/test/java/com/querydslstudy/repository/MemberRepositoryTest.java:34-59 | the saved fixture as tables, with unique ids and resolvable team ids |
| `Scenario.SearchByUsername` | src/test/java/com/querydslstudy/repository/MemberRepositoryTest.java:67-80 | username "member1" gives one response, member1's |
| `Scenario.SearchByAgeRange` | src/test/java/com/querydslstudy/repository/MemberRepositoryTest.java:82-94 | ages 20..40 give 3 responses |
| `Scenario.SearchByTeamName` | src/test/java/com/querydslstudy/repository/MemberRepositoryTest.java:96-109 | team "teamA" gives 2 responses, all with team name "teamA" |
| `Scenario.SearchByStatus` | src/test/java/com/querydslstudy/repository/MemberRepositoryTest.java:111-123 | status ACTIVE gives all 4 |
| `Scenario.SearchByAllConditions` | src/test/java/com/querydslstudy/repository/MemberRepositoryTest.java:125-138 | ages 20..30, teamA, ACTIVE give only member2 |
| `Scenario.JoinScenario` | src/test/java/com/querydslstudy/repository/MemberRepositoryTest.java:140-144 | the inner join returns all 4 members |
| `Scenario.SubqueryScenario` | src/test/java/com/querydslstudy/repository/MemberRepositoryTest.java:146-151 | with mean age 25 the members aged 30 and 40 are returned |
| `Scenario.PagingScenario` | src/test/java/com/querydslstudy/repository/MemberRepositoryTest.java:153-157 | offset 0, limit 2 gives 2 members |
| `Scenario.FirstPage` | src/test/java/com/querydslstudy/repository/MemberRepositoryTest.java:159-177 | page 0 of size 2 holds 2 rows of a total of 4 in 2 pages |
| `Scenario.SecondPage` | src/test/java/com/querydslstudy/repository/MemberRepositoryTest.java:179-196 | page 1 of size 2 holds 2 rows of a total of 4 in 2 pages |
| `Scenario.FilteredFirstPage` | src/test/java/com/querydslstudy/repository/MemberRepositoryTest.java:198-213 | ages 20..40, page 0 of size 2 holds 2 rows of a total of 3 |
| `Scenario.CountScenario` | src/test/java/com/querydslstudy/repository/MemberRepositoryTest.java:215-225 | each test team counts 2 members |

## Left out

- SearchByConditionSpec: states which responses come back, and how often, but not their order. The statement has no ORDER BY, so the order is the database's choice. The model returns them in table order.
- JPA persistence is not modelled: `@GeneratedValue` identifiers, lazy loading, `fetchJoin` and `CascadeType.ALL`. Ids are given in the rows, are unique, and do not appear in the entity objects.
- The entity objects and the tables are separate models. Nothing proves that saving the objects yields the rows of `TestStore`.
- `Team.addMember` does not remove the member from the list of a team it belonged to before. The model keeps this: the ensures of `AddMember` speak only about the team being added to.
- The translation of QueryDSL expressions to SQL is not modelled, and neither is the SQL engine. Only the row-level meaning of each statement is modelled.
- Debug logging is not modelled.
- Spring wiring, the repository interfaces and the test harness (`@SpringBootTest`, `@Transactional`) are not modelled.
- The database's floating-point average is not modelled. The exact mean is used instead; rounding could differ only for sums beyond double precision.
- Of `PageImpl`, the content, request, total, page count and the total's correction for a short last page (`Page.ReportedTotal`) are modelled; the correction is proved never to change the count query's value. `Pageable.unpaged()`, whose offset is undefined, is not modelled.
- The count query's fallback to 0 when it returns null is not modelled. A count query always returns a number, so the model never reaches the fallback.
- Java `Integer`/`Long` overflow, a null age and a null team id passed to `countMembersByTeam` are not modelled.
- A NULL username or team name is not modelled. `Member.of(null, …)` and `Team.of(null)` accept one (Member.java:33, Team.java:29), and SQL then evaluates an equality filter on that column to unknown and drops the row. The model's username and team name are plain strings, so a filter on them always compares two values.
- String comparison is exact code-point equality. A database collation that ignores case or trailing spaces is not modelled.
- `Team.addMember(null)` is not modelled. The Java method appends null to the list and then fails when it sets the member's team; the model's `AddMember` takes a non-null member.
- MemberStatus.java is not part of this model. The status is assumed to have the two values ACTIVE and INACTIVE.
