/**
 * The query-parameter compiler of DepositPropertiesDAO: buildQueryCriteria,
 * getDatePredicate, isEmpty and parseDate.
 *
 * A caller's Map<String, List<String>> is a sequence of entries in the
 * order the map iterates them. The compiler lower-cases every key into a
 * fresh map (a later entry overwrites an earlier one with the same
 * lower-cased key), reports the keys outside the allow-list as ignored, and
 * builds the AND of an optional date clause followed by one OR of
 * equalities for each of depositid, user, state and deleted that has
 * values. `QueryCriteria` is the compiler as a function; the method
 * `BuildQueryCriteria` follows the source's loops and is proved to compute
 * it.
 */
module Criteria {
  import opened Wrappers
  import opened CalendarDate
  import opened Deposits

  /** One entry of the caller's parameter map. */
  datatype Param = Param(name: string, values: seq<string>)

  /** The caller's entries, in the map's iteration order. */
  type QueryParameters = seq<Param>

  /** The map with lower-cased keys. */
  type Lowered = map<string, seq<string>>

  datatype Error =
    | EmptyDateWithOther           // an empty startdate or enddate list while the other key is present
    | DateCountMismatch            // start and end counts that fit no row of the date policy
    | MalformedDate(text: string)  // a date text that is not a YYYY-MM-DD calendar date

  /** The ignored parameter names (logged as an error) and the filter, or the exception raised. */
  datatype Compilation = Compilation(ignored: set<string>, criteria: Result<Expr, Error>)

  // ---------------------------------------------------------------------
  // Parameter names

  function LowerChar(c: char): char {
    if 'A' <= c <= 'Z' then (c as int + 32) as char else c
  }

  function UpperChar(c: char): char {
    if 'a' <= c <= 'z' then (c as int - 32) as char else c
  }

  function Lower(s: string): string {
    seq(|s|, i requires 0 <= i < |s| => LowerChar(s[i]))
  }

  /** The lower-cased map after putting every entry in turn: each key is the lower-cased name of an entry. */
  function Normalize(q: QueryParameters): (m: Lowered)
    ensures forall k :: k in m ==> exists i :: 0 <= i < |q| && Lower(q[i].name) == k
  {
    if q == [] then map[]
    else
      var n := |q| - 1;
      assert forall i :: 0 <= i < n ==> q[..n][i] == q[i];
      Normalize(q[..n])[Lower(q[n].name) := q[n].values]
  }

  /** Equality parameters in the order the source visits them, date parameters aside. */
  const FieldParams: seq<string> := ["depositid", "user", "state", "deleted"]

  const AllowedNames: set<string> := {"depositid", "user", "state", "deleted", "startdate", "enddate"}

  function IgnoredNames(m: Lowered): set<string> {
    set k | k in m && k !in AllowedNames
  }

  function Lookup(m: Lowered, name: string): Option<seq<string>> {
    if name in m then Some(m[name]) else None
  }

  // ---------------------------------------------------------------------
  // Equality clauses

  /**
   * Boolean.parseBoolean: whether `s` equals "true" ignoring case. It is true
   * exactly for "true" in any letter case; every other text is false.
   */
  function ParseBoolean(s: string): (b: bool)
    ensures b <==> Lower(s) == "true"
  {
    |s| == 4 && forall i :: 0 <= i < 4 ==> SameIgnoringCase(s[i], "true"[i])
  }

  /** Character comparison of String.equalsIgnoreCase. */
  predicate SameIgnoringCase(a: char, b: char) {
    a == b || UpperChar(a) == UpperChar(b) || LowerChar(UpperChar(a)) == LowerChar(UpperChar(b))
  }

  /** The column a text equality parameter is compared with. */
  function ParamColumn(name: string): TextColumn {
    if name == "depositid" then DepositIdColumn
    else if name == "user" then DepositorColumn
    else DepositStateColumn
  }

  /** The comparison one value of an equality parameter contributes. */
  function Equality(name: string, value: string): Expr {
    if name == "deleted" then DeletedEquals(ParseBoolean(value)) else TextEquals(ParamColumn(name), value)
  }

  /** The OR of one equality per value, in value order. */
  function Disjunction(name: string, values: seq<string>): Expr {
    Or(seq(|values|, i requires 0 <= i < |values| => Equality(name, values[i])))
  }

  /** A parameter restricts its field when it is present with at least one value. */
  predicate Restricts(m: Lowered, name: string) {
    name in m && |m[name]| > 0
  }

  function FieldClause(m: Lowered, name: string): seq<Expr> {
    if Restricts(m, name) then [Disjunction(name, m[name])] else []
  }

  /** The clauses of the equality parameters `names`, in order. */
  function FieldClauses(m: Lowered, names: seq<string>): seq<Expr> {
    if names == [] then [] else FieldClauses(m, names[..|names| - 1]) + FieldClause(m, names[|names| - 1])
  }

  // ---------------------------------------------------------------------
  // Date clause

  /** isEmpty: a list that is present and has no element (an absent list is not empty). */
  function IsEmpty(list: Option<seq<string>>): (b: bool)
    ensures list.None? ==> !b
    ensures list.Some? ==> (b <==> |list.value| == 0)
  {
    list.Some? && |list.value| == 0
  }

  /**
   * parseDate: 00:00 UTC of a YYYY-MM-DD date, a whole number of days after
   * the epoch; any other text fails naming itself.
   */
  function ParseInstant(text: string): (r: Result<Instant, Error>)
    ensures r.Success? <==> ParseDate(text).Some?
    ensures r.Failure? ==> r.error == MalformedDate(text)
    ensures r.Success? ==> r.value == (DayCount(ParseDate(text).value) - DaysFromYearZeroTo1970) * NanosPerDay
  {
    match ParseDate(text)
    case Some(d) => Success(StartOfDay(d))
    case None => Failure(MalformedDate(text))
  }

  /** BETWEEN starts[i] AND ends[i] for each i, parsing start then end of each pair in turn. */
  function Ranges(starts: seq<string>, ends: seq<string>): (r: Result<seq<Expr>, Error>)
    requires |starts| == |ends|
    ensures r.Success? ==> |r.value| == |starts| && forall k :: 0 <= k < |r.value| ==> r.value[k].CreatedBetween?
    ensures r.Failure? ==> r.error.MalformedDate? && ParseDate(r.error.text).None?
  {
    if starts == [] then Success([])
    else
      var n := |starts| - 1;
      var init :- Ranges(starts[..n], ends[..n]);
      var low :- ParseInstant(starts[n]);
      var high :- ParseInstant(ends[n]);
      Success(init + [CreatedBetween(low, high)])
  }

  /** getDatePredicate's decision table. */
  function DatePredicate(startDates: Option<seq<string>>, endDates: Option<seq<string>>): (r: Result<Expr, Error>)
    ensures startDates.None? && endDates.None? ==> r == Failure(DateCountMismatch)
    ensures r.Success? ==>
      || r.value.CreatedIsNull?
      || r.value.CreatedAtLeast?
      || r.value.CreatedAtMost?
      || (&& r.value.Or? && startDates.Some? && |r.value.disjuncts| == |startDates.value| > 0
          && forall k :: 0 <= k < |r.value.disjuncts| ==> r.value.disjuncts[k].CreatedBetween?)
    ensures r.Failure? && r.error.MalformedDate? ==> ParseDate(r.error.text).None?
  {
    if IsEmpty(startDates) || IsEmpty(endDates) then
      if startDates.Some? && endDates.Some? then Failure(EmptyDateWithOther) else Success(CreatedIsNull)
    else if startDates.Some? && |startDates.value| == 1 && (endDates.None? || |endDates.value| == 0) then
      var lower :- ParseInstant(startDates.value[0]);
      Success(CreatedAtLeast(lower))
    else if endDates.Some? && |endDates.value| == 1 && (startDates.None? || |startDates.value| == 0) then
      var upper :- ParseInstant(endDates.value[0]);
      Success(CreatedAtMost(upper))
    else if startDates.Some? && endDates.Some? && |startDates.value| == |endDates.value| then
      var ranges :- Ranges(startDates.value, endDates.value);
      Success(Or(ranges))
    else
      Failure(DateCountMismatch)
  }

  // ---------------------------------------------------------------------
  // The whole compiler

  /** buildQueryCriteria: the AND of the date clause, if a date key is present, and the equality clauses. */
  function QueryCriteria(q: QueryParameters): (c: Compilation)
    ensures c.criteria.Failure? ==> "startdate" in Normalize(q) || "enddate" in Normalize(q)
    ensures c.criteria.Success? ==> c.criteria.value.And?
    ensures forall k :: k in c.ignored ==> k !in AllowedNames && exists i :: 0 <= i < |q| && Lower(q[i].name) == k
  {
    var m := Normalize(q);
    var startDates := Lookup(m, "startdate");
    var endDates := Lookup(m, "enddate");
    var criteria :=
      if startDates.Some? || endDates.Some? then
        match DatePredicate(startDates, endDates)
        case Success(date) => Success(And([date] + FieldClauses(m, FieldParams)))
        case Failure(err) => Failure(err)
      else
        Success(And(FieldClauses(m, FieldParams)));
    Compilation(IgnoredNames(m), criteria)
  }

  // ---------------------------------------------------------------------
  // The compiler as the source runs it

  lemma {:induction false} RangesStop(starts: seq<string>, ends: seq<string>, k: nat)
    requires |starts| == |ends| && k <= |starts|
    requires Ranges(starts[..k], ends[..k]).Failure?
    ensures Ranges(starts, ends) == Ranges(starts[..k], ends[..k])
  {
    if k < |starts| {
      var n := |starts| - 1;
      assert starts[..n][..k] == starts[..k] && ends[..n][..k] == ends[..k];
      RangesStop(starts[..n], ends[..n], k);
      RangesFailureCarries(starts, ends);
    } else {
      assert starts[..k] == starts && ends[..k] == ends;
    }
  }

  /** A failure on the pairs before the last is the failure of all of them. */
  lemma RangesFailureCarries(starts: seq<string>, ends: seq<string>)
    requires |starts| == |ends| > 0
    requires Ranges(starts[..|starts| - 1], ends[..|ends| - 1]).Failure?
    ensures Ranges(starts, ends) == Ranges(starts[..|starts| - 1], ends[..|ends| - 1])
  {
  }

  /** getDatePredicate, as a chain of branches. */
  method GetDatePredicate(startDates: Option<seq<string>>, endDates: Option<seq<string>>)
    returns (r: Result<Expr, Error>)
    ensures r == DatePredicate(startDates, endDates)
  {
    if IsEmpty(startDates) || IsEmpty(endDates) {
      if startDates.Some? && endDates.Some? {
        return Failure(EmptyDateWithOther);
      }
      return Success(CreatedIsNull);
    } else if startDates.Some? && |startDates.value| == 1 && (endDates.None? || |endDates.value| == 0) {
      var lower :- ParseInstant(startDates.value[0]);
      return Success(CreatedAtLeast(lower));
    } else if endDates.Some? && |endDates.value| == 1 && (startDates.None? || |startDates.value| == 0) {
      var upper :- ParseInstant(endDates.value[0]);
      return Success(CreatedAtMost(upper));
    } else if startDates.Some? && endDates.Some? && |startDates.value| == |endDates.value| {
      var ranges :- BetweenRanges(startDates.value, endDates.value);
      return Success(Or(ranges));
    } else {
      return Failure(DateCountMismatch);
    }
  }

  /** The indexed loop of getDatePredicate's paired branch: a BETWEEN per index, parsing start then end. */
  method BetweenRanges(starts: seq<string>, ends: seq<string>) returns (r: Result<seq<Expr>, Error>)
    requires |starts| == |ends|
    ensures r == Ranges(starts, ends)
  {
    var orPredicates: seq<Expr> := [];
    for i := 0 to |starts|
      invariant Ranges(starts[..i], ends[..i]) == Success(orPredicates)
    {
      assert starts[..i + 1][..i] == starts[..i] && ends[..i + 1][..i] == ends[..i];
      var startDate := ParseInstant(starts[i]);
      if startDate.Failure? {
        RangesStop(starts, ends, i + 1);
        return Failure(startDate.error);
      }
      var endDate := ParseInstant(ends[i]);
      if endDate.Failure? {
        RangesStop(starts, ends, i + 1);
        return Failure(endDate.error);
      }
      orPredicates := orPredicates + [CreatedBetween(startDate.value, endDate.value)];
    }
    assert starts[..|starts|] == starts && ends[..|ends|] == ends;
    return Success(orPredicates);
  }

  /** The forEach that puts every entry, key lower-cased, into a fresh HashMap. */
  method LowerCaseKeys(q: QueryParameters) returns (lowered: Lowered)
    ensures lowered == Normalize(q)
  {
    lowered := map[];
    for i := 0 to |q|
      invariant lowered == Normalize(q[..i])
    {
      assert q[..i + 1][..i] == q[..i];
      lowered := lowered[Lower(q[i].name) := q[i].values];
    }
    assert q[..|q|] == q;
  }

  /** The inner forEach: one equality per value, collected into an OR. */
  method EqualityDisjunction(name: string, values: seq<string>) returns (e: Expr)
    ensures e == Disjunction(name, values)
  {
    var orPredicates: seq<Expr> := [];
    for j := 0 to |values|
      invariant |orPredicates| == j
      invariant forall t :: 0 <= t < j ==> orPredicates[t] == Equality(name, values[t])
    {
      if name == "deleted" {
        orPredicates := orPredicates + [DeletedEquals(ParseBoolean(values[j]))];
      } else {
        orPredicates := orPredicates + [TextEquals(ParamColumn(name), values[j])];
      }
    }
    e := Or(orPredicates);
  }

  /** The outer forEach over depositid, user, state and deleted. */
  method AppendFieldClauses(lowered: Lowered, predicates: seq<Expr>) returns (result: seq<Expr>)
    ensures result == predicates + FieldClauses(lowered, FieldParams)
  {
    result := predicates;
    for k := 0 to |FieldParams|
      invariant result == predicates + FieldClauses(lowered, FieldParams[..k])
    {
      assert FieldParams[..k + 1][..k] == FieldParams[..k];
      var name := FieldParams[k];
      if name in lowered && |lowered[name]| > 0 {
        var clause := EqualityDisjunction(name, lowered[name]);
        result := result + [clause];
      }
    }
    assert FieldParams[..|FieldParams|] == FieldParams;
  }

  /** buildQueryCriteria: lower-case the keys, report the ignored ones, then append the clauses. */
  method BuildQueryCriteria(q: QueryParameters) returns (ignored: set<string>, criteria: Result<Expr, Error>)
    ensures Compilation(ignored, criteria) == QueryCriteria(q)
  {
    var lowered := LowerCaseKeys(q);
    ignored := set k | k in lowered && k !in AllowedNames;
    assert ignored == IgnoredNames(lowered);

    var predicates: seq<Expr> := [];
    var startDates := Lookup(lowered, "startdate");
    var endDates := Lookup(lowered, "enddate");
    if startDates.Some? || endDates.Some? {
      var date := GetDatePredicate(startDates, endDates);
      if date.Failure? {
        criteria := Failure(date.error);
        assert QueryCriteria(q).criteria == criteria;
        return;
      }
      predicates := [date.value];
    }
    predicates := AppendFieldClauses(lowered, predicates);
    criteria := Success(And(predicates));
    if startDates.Some? || endDates.Some? {
      assert DatePredicate(startDates, endDates) == Success(predicates[0]);
      assert predicates == [predicates[0]] + FieldClauses(lowered, FieldParams);
    } else {
      assert predicates == FieldClauses(lowered, FieldParams);
    }
  }
}
