/**
 * MemberSearchCondition: turns a MemberSearchRequest into one WHERE condition,
 * the conjunction of the per-field checks whose filter value is present.
 */
module MemberSearchCondition {
  import opened Wrappers
  import opened Schema

  /** Java's Character.isWhitespace: the Unicode space, line and paragraph
      separators except the no-break spaces, plus U+0009..U+000D and U+001C..U+001F. */
  predicate IsWhitespace(c: char) {
    var n := c as int;
    || 0x09 <= n <= 0x0D
    || 0x1C <= n <= 0x20
    || n == 0x1680
    || 0x2000 <= n <= 0x2006
    || 0x2008 <= n <= 0x200A
    || n == 0x2028 || n == 0x2029 || n == 0x205F || n == 0x3000
  }

  /** Spaces, tabs and line breaks are whitespace; the no-break spaces and the zero-width space are not. */
  lemma WhitespaceExamples()
    ensures IsWhitespace(' ') && IsWhitespace('\t') && IsWhitespace('\n') && IsWhitespace('\U{3000}')
    ensures !IsWhitespace('\U{00A0}') && !IsWhitespace('\U{2007}') && !IsWhitespace('\U{202F}')
    ensures !IsWhitespace('\U{200B}') && !IsWhitespace('a')
  {
  }

  /** String.isBlank: empty or whitespace only. */
  predicate IsBlank(s: string) {
    forall i :: 0 <= i < |s| ==> IsWhitespace(s[i])
  }

  /** The scan isBlank performs: the index of the first non-whitespace character, or the length when there is none. */
  function FirstNonWhitespace(s: string): (k: nat)
    ensures k <= |s|
    ensures forall i :: 0 <= i < k ==> IsWhitespace(s[i])
    ensures k < |s| ==> !IsWhitespace(s[k])
  {
    if s == [] then 0
    else if !IsWhitespace(s[0]) then 0
    else
      var k := 1 + FirstNonWhitespace(s[1..]);
      assert forall i :: 1 <= i < k ==> s[i] == s[1..][i - 1];
      k
  }

  /** A string is blank exactly when the scan runs off its end. */
  lemma BlankIffScanReachesEnd(s: string)
    ensures IsBlank(s) <==> FirstNonWhitespace(s) == |s|
  {
  }

  /** A string filter is active when it is non-null and not blank. */
  predicate HasText(s: Option<string>) {
    s.Some? && !IsBlank(s.value)
  }

  /** One comparison of a column with a filter value. */
  datatype FieldCheck =
    | UsernameIs(username: string)
    | AgeAtLeast(bound: int)
    | AgeAtMost(bound: int)
    | TeamNameIs(teamName: string)
    | StatusIs(status: MemberStatus)

  /** A boolean expression built by `and`. */
  datatype Condition = Atom(check: FieldCheck) | And(left: Condition, right: Condition)

  /** Whether a left-joined row satisfies one check. A comparison with the name
      of an absent team is SQL's unknown, so such a row does not satisfy it. */
  predicate Holds(check: FieldCheck, row: JoinedRow) {
    match check
    case UsernameIs(n) => row.member.username == n
    case AgeAtLeast(b) => row.member.age >= b
    case AgeAtMost(b) => row.member.age <= b
    case TeamNameIs(n) => row.team.Some? && row.team.value.name == n
    case StatusIs(s) => row.member.status == s
  }

  predicate Eval(c: Condition, row: JoinedRow) {
    match c
    case Atom(check) => Holds(check, row)
    case And(l, r) => Eval(l, row) && Eval(r, row)
  }

  /** The WHERE clause of condition `c`: a null condition adds none and keeps every row. */
  predicate Where(c: Option<Condition>, row: JoinedRow) {
    c.None? || Eval(c.value, row)
  }

  function UsernameEq(username: Option<string>): (r: Option<Condition>)
    ensures r.Some? <==> HasText(username)
    ensures r.Some? ==> forall row :: Eval(r.value, row) <==> row.member.username == username.value
  {
    if HasText(username) then Some(Atom(UsernameIs(username.value))) else None
  }

  function AgeGoe(ageGoe: Option<int>): (r: Option<Condition>)
    ensures r.Some? <==> ageGoe.Some?
    ensures r.Some? ==> forall row :: Eval(r.value, row) <==> row.member.age >= ageGoe.value
  {
    if ageGoe.Some? then Some(Atom(AgeAtLeast(ageGoe.value))) else None
  }

  function AgeLoe(ageLoe: Option<int>): (r: Option<Condition>)
    ensures r.Some? <==> ageLoe.Some?
    ensures r.Some? ==> forall row :: Eval(r.value, row) <==> row.member.age <= ageLoe.value
  {
    if ageLoe.Some? then Some(Atom(AgeAtMost(ageLoe.value))) else None
  }

  function TeamNameEq(teamName: Option<string>): (r: Option<Condition>)
    ensures r.Some? <==> HasText(teamName)
    ensures r.Some? ==> forall row :: Eval(r.value, row) <==> row.team.Some? && row.team.value.name == teamName.value
  {
    if HasText(teamName) then Some(Atom(TeamNameIs(teamName.value))) else None
  }

  function StatusEq(status: Option<MemberStatus>): (r: Option<Condition>)
    ensures r.Some? <==> status.Some?
    ensures r.Some? ==> forall row :: Eval(r.value, row) <==> row.member.status == status.value
  {
    if status.Some? then Some(Atom(StatusIs(status.value))) else None
  }

  /** One step of Expressions.allOf: the accumulated condition when the next part is null, the part when nothing has accumulated yet, and their conjunction otherwise. */
  function AndNullable(rv: Option<Condition>, b: Option<Condition>): (r: Option<Condition>)
    ensures r.None? <==> rv.None? && b.None?
    ensures forall row :: Where(r, row) <==> Where(rv, row) && Where(b, row)
  {
    if rv.None? then b else if b.None? then rv else Some(And(rv.value, b.value))
  }

  /** Expressions.allOf, continuing from the accumulated `rv`. */
  function AllOfFrom(rv: Option<Condition>, parts: seq<Option<Condition>>): Option<Condition>
    decreases |parts|
  {
    if parts == [] then rv else AllOfFrom(AndNullable(rv, parts[0]), parts[1..])
  }

  /** Expressions.allOf: the conjunction of the non-null parts, null when there are none. */
  function AllOf(parts: seq<Option<Condition>>): Option<Condition> {
    AllOfFrom(None, parts)
  }

  /** allOf keeps a row exactly when every non-null part does. */
  lemma {:induction false} AllOfFromMeaning(rv: Option<Condition>, parts: seq<Option<Condition>>, row: JoinedRow)
    ensures Where(AllOfFrom(rv, parts), row) <==>
              Where(rv, row) && forall i :: 0 <= i < |parts| ==> Where(parts[i], row)
    decreases |parts|
  {
    if parts != [] {
      AllOfFromMeaning(AndNullable(rv, parts[0]), parts[1..], row);
      assert forall i :: 1 <= i < |parts| ==> parts[i] == parts[1..][i - 1];
    }
  }

  /** The fold yields a null condition exactly when the seed and every part are null. */
  lemma {:induction false} AllOfFromIsNull(rv: Option<Condition>, parts: seq<Option<Condition>>)
    ensures AllOfFrom(rv, parts).None? <==> rv.None? && forall i :: 0 <= i < |parts| ==> parts[i].None?
    decreases |parts|
  {
    if parts != [] {
      AllOfFromIsNull(AndNullable(rv, parts[0]), parts[1..]);
      assert forall i :: 1 <= i < |parts| ==> parts[i] == parts[1..][i - 1];
    }
  }

  /** The five per-field conditions, in the order buildCondition passes them to allOf. */
  function FieldConditions(req: SearchRequest): seq<Option<Condition>> {
    [UsernameEq(req.username), AgeGoe(req.ageGoe), AgeLoe(req.ageLoe), TeamNameEq(req.teamName), StatusEq(req.status)]
  }

  /** No filter of the request is active. */
  predicate NoFilter(req: SearchRequest) {
    && !HasText(req.username) && req.ageGoe.None? && req.ageLoe.None?
    && !HasText(req.teamName) && req.status.None?
  }

  /** buildCondition: null (no WHERE clause) exactly when no filter is active. */
  function BuildCondition(req: SearchRequest): (r: Option<Condition>)
    ensures r.None? <==> NoFilter(req)
  {
    var parts := FieldConditions(req);
    AllOfFromIsNull(None, parts);
    assert (forall i :: 0 <= i < |parts| ==> parts[i].None?) <==>
      parts[0].None? && parts[1].None? && parts[2].None? && parts[3].None? && parts[4].None?;
    AllOf(parts)
  }

  /** Whether a left-joined row passes the built condition. */
  predicate Matches(req: SearchRequest, row: JoinedRow) {
    Where(BuildCondition(req), row)
  }

  /** Reference definition: each active filter's own check, with inactive ones imposing nothing. */
  predicate SatisfiesActiveFilters(req: SearchRequest, row: JoinedRow) {
    && (HasText(req.username) ==> row.member.username == req.username.value)
    && (req.ageGoe.Some? ==> row.member.age >= req.ageGoe.value)
    && (req.ageLoe.Some? ==> row.member.age <= req.ageLoe.value)
    && (HasText(req.teamName) ==> row.team.Some? && row.team.value.name == req.teamName.value)
    && (req.status.Some? ==> row.member.status == req.status.value)
  }

  /** The built condition keeps a row exactly when every active per-field check does. */
  lemma MatchesIffActiveFilters(req: SearchRequest, row: JoinedRow)
    ensures Matches(req, row) <==> SatisfiesActiveFilters(req, row)
  {
    var parts := FieldConditions(req);
    AllOfFromMeaning(None, parts, row);
    assert Where(parts[0], row) <==> (HasText(req.username) ==> row.member.username == req.username.value);
    assert Where(parts[1], row) <==> (req.ageGoe.Some? ==> row.member.age >= req.ageGoe.value);
    assert Where(parts[2], row) <==> (req.ageLoe.Some? ==> row.member.age <= req.ageLoe.value);
    assert Where(parts[3], row) <==> (HasText(req.teamName) ==> row.team.Some? && row.team.value.name == req.teamName.value);
    assert Where(parts[4], row) <==> (req.status.Some? ==> row.member.status == req.status.value);
  }

  /** With every filter null or blank, every row matches. */
  lemma NoFilterMatchesEverything(req: SearchRequest, row: JoinedRow)
    requires NoFilter(req)
    ensures Matches(req, row)
  {
  }

  /** A null or blank username is ignored; otherwise it demands exact equality. */
  lemma UsernameFilter(req: SearchRequest, row: JoinedRow)
    ensures !HasText(req.username) ==> (Matches(req, row) <==> Matches(req.(username := None), row))
    ensures HasText(req.username) ==>
              (Matches(req, row) <==> row.member.username == req.username.value && Matches(req.(username := None), row))
  {
    MatchesIffActiveFilters(req, row);
    MatchesIffActiveFilters(req.(username := None), row);
  }

  /** The age bounds are inclusive: a matching row's age lies within both bounds, and a
      row whose age equals both bounds is not excluded by them. */
  lemma AgeBoundsInclusive(req: SearchRequest, row: JoinedRow)
    ensures Matches(req, row) && req.ageGoe.Some? ==> req.ageGoe.value <= row.member.age
    ensures Matches(req, row) && req.ageLoe.Some? ==> row.member.age <= req.ageLoe.value
    ensures req.ageGoe == Some(row.member.age) && req.ageLoe == Some(row.member.age) ==>
              (Matches(req, row) <==> Matches(req.(ageGoe := None, ageLoe := None), row))
  {
    MatchesIffActiveFilters(req, row);
    MatchesIffActiveFilters(req.(ageGoe := None, ageLoe := None), row);
  }

  /** An active team name compares with the joined team's name: a member without
      a team never matches it, and a null or blank team name is ignored. */
  lemma TeamNameFilter(req: SearchRequest, row: JoinedRow)
    ensures HasText(req.teamName) && row.team.None? ==> !Matches(req, row)
    ensures HasText(req.teamName) && Matches(req, row) ==> row.team.value.name == req.teamName.value
    ensures !HasText(req.teamName) ==> (Matches(req, row) <==> Matches(req.(teamName := None), row))
  {
    MatchesIffActiveFilters(req, row);
    MatchesIffActiveFilters(req.(teamName := None), row);
  }

  /** A non-null status demands exact equality; a null one is ignored. */
  lemma StatusFilter(req: SearchRequest, row: JoinedRow)
    ensures req.status.Some? && Matches(req, row) ==> row.member.status == req.status.value
    ensures req.status.None? ==> (Matches(req, row) <==> Matches(req.(status := Some(row.member.status)), row))
  {
    MatchesIffActiveFilters(req, row);
    MatchesIffActiveFilters(req.(status := Some(row.member.status)), row);
  }

  /** Every filter active in `wide` is active in `narrow` with the same value. */
  predicate Narrows(narrow: SearchRequest, wide: SearchRequest) {
    && (HasText(wide.username) ==> narrow.username == wide.username)
    && (wide.ageGoe.Some? ==> narrow.ageGoe == wide.ageGoe)
    && (wide.ageLoe.Some? ==> narrow.ageLoe == wide.ageLoe)
    && (HasText(wide.teamName) ==> narrow.teamName == wide.teamName)
    && (wide.status.Some? ==> narrow.status == wide.status)
  }

  /** Activating more filters never admits a row that was excluded before. */
  lemma NarrowingIsMonotonic(narrow: SearchRequest, wide: SearchRequest, row: JoinedRow)
    requires Narrows(narrow, wide)
    ensures Matches(narrow, row) ==> Matches(wide, row)
  {
    MatchesIffActiveFilters(narrow, row);
    MatchesIffActiveFilters(wide, row);
  }

  /** An empty age range (ageGoe > ageLoe) matches no row. */
  lemma EmptyAgeRange(req: SearchRequest, row: JoinedRow)
    requires req.ageGoe.Some? && req.ageLoe.Some? && req.ageGoe.value > req.ageLoe.value
    ensures !Matches(req, row)
  {
    MatchesIffActiveFilters(req, row);
  }
}
