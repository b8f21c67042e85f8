/**
 * What the compiled criteria mean and when compilation fails.
 *
 * `Selected` reads a lowered parameter map directly as a condition on one
 * record; `QueryCriteriaMeaning` proves that the compiled filter selects
 * exactly those records. `DatePolicy` characterises the date decision table
 * by the numbers of start and end dates, and the remaining lemmas cover key
 * normalisation, ignored keys and the calls the DAO itself makes.
 */
module CriteriaProperties {
  import opened Wrappers
  import opened CalendarDate
  import opened Deposits
  import opened Criteria

  // ---------------------------------------------------------------------
  // Parameter names

  /** The lowered map has exactly the lower-cased names of the entries as keys. */
  lemma {:induction false} NormalizeKeys(q: QueryParameters)
    ensures forall k :: k in Normalize(q) <==> exists i :: 0 <= i < |q| && Lower(q[i].name) == k
  {
    if q != [] {
      var n := |q| - 1;
      NormalizeKeys(q[..n]);
      forall k | k in Normalize(q)
        ensures exists i :: 0 <= i < |q| && Lower(q[i].name) == k
      {
        if k != Lower(q[n].name) {
          assert k in Normalize(q[..n]);
          var i :| 0 <= i < n && Lower(q[..n][i].name) == k;
          assert Lower(q[i].name) == k;
        }
      }
      forall k | exists i :: 0 <= i < |q| && Lower(q[i].name) == k
        ensures k in Normalize(q)
      {
        var i :| 0 <= i < |q| && Lower(q[i].name) == k;
        if i < n {
          assert Lower(q[..n][i].name) == k;
        }
      }
    }
  }

  /** Of the entries whose names lower-case alike, the last one in iteration order supplies the values. */
  lemma {:induction false} NormalizeLastWins(q: QueryParameters, i: nat)
    requires i < |q|
    requires forall j :: i < j < |q| ==> Lower(q[j].name) != Lower(q[i].name)
    ensures Lower(q[i].name) in Normalize(q)
    ensures Normalize(q)[Lower(q[i].name)] == q[i].values
  {
    var n := |q| - 1;
    assert Normalize(q) == Normalize(q[..n])[Lower(q[n].name) := q[n].values];
    if i < n {
      assert q[..n][i] == q[i];
      assert forall j :: i < j < n ==> q[..n][j] == q[j];
      NormalizeLastWins(q[..n], i);
    }
  }

  /** Names are matched case-insensitively: entries whose names lower-case alike compile alike. */
  lemma {:induction false} CaseInsensitiveNames(q: QueryParameters, q': QueryParameters)
    requires |q| == |q'|
    requires forall i :: 0 <= i < |q| ==> Lower(q[i].name) == Lower(q'[i].name) && q[i].values == q'[i].values
    ensures Normalize(q) == Normalize(q')
    ensures QueryCriteria(q) == QueryCriteria(q')
  {
    if q != [] {
      var n := |q| - 1;
      CaseInsensitiveNames(q[..n], q'[..n]);
    }
  }

  /** The ignored names are the lower-cased names outside the allow-list, whether or not compilation fails. */
  lemma IgnoredParameters(q: QueryParameters)
    ensures forall k :: k in QueryCriteria(q).ignored <==>
      k !in AllowedNames && exists i :: 0 <= i < |q| && Lower(q[i].name) == k
  {
    NormalizeKeys(q);
  }

  lemma FieldClausesAgree(m: Lowered, m': Lowered, names: seq<string>)
    requires forall n :: n in names ==> Lookup(m, n) == Lookup(m', n)
    ensures FieldClauses(m, names) == FieldClauses(m', names)
  {
    if names != [] {
      var last := names[|names| - 1];
      assert last in names;
      assert forall n :: n in names[..|names| - 1] ==> n in names;
      FieldClausesAgree(m, m', names[..|names| - 1]);
      assert FieldClause(m, last) == FieldClause(m', last);
    }
  }

  /**
   * An entry whose name is not allowed adds nothing to the filter, wherever it
   * comes in iteration order; it only joins the ignored names.
   */
  lemma UnknownParameterIgnored(q1: QueryParameters, p: Param, q2: QueryParameters)
    requires Lower(p.name) !in AllowedNames
    ensures QueryCriteria(q1 + [p] + q2).criteria == QueryCriteria(q1 + q2).criteria
    ensures QueryCriteria(q1 + [p] + q2).ignored == QueryCriteria(q1 + q2).ignored + {Lower(p.name)}
  {
    NormalizeInsert(q1, p, q2);
    UnknownKeyAgrees(Normalize(q1 + q2), Normalize(q1 + [p] + q2), Lower(p.name));
  }

  /** Maps that differ only under a name outside the allow-list give the same clauses and ignore that name besides. */
  lemma UnknownKeyAgrees(m: Lowered, m': Lowered, name: string)
    requires name !in AllowedNames && name in m'
    requires forall k :: k != name ==> Lookup(m', k) == Lookup(m, k)
    ensures FieldClauses(m', FieldParams) == FieldClauses(m, FieldParams)
    ensures Lookup(m', "startdate") == Lookup(m, "startdate")
    ensures Lookup(m', "enddate") == Lookup(m, "enddate")
    ensures IgnoredNames(m') == IgnoredNames(m) + {name}
  {
    FieldClausesAgree(m, m', FieldParams);
    forall k
      ensures k in IgnoredNames(m') <==> k in IgnoredNames(m) + {name}
    {
      if k != name {
        assert Lookup(m', k) == Lookup(m, k);
      }
    }
  }

  /** Inserting an entry anywhere changes the lowered map only under that entry's own lowered name. */
  lemma {:induction false} NormalizeInsert(q1: QueryParameters, p: Param, q2: QueryParameters)
    ensures Lower(p.name) in Normalize(q1 + [p] + q2)
    ensures forall k :: k != Lower(p.name) ==>
      Lookup(Normalize(q1 + [p] + q2), k) == Lookup(Normalize(q1 + q2), k)
  {
    if q2 == [] {
      assert q1 + [p] + q2 == q1 + [p] && q1 + q2 == q1;
      NormalizeSnoc(q1, p);
    } else {
      var n := |q2| - 1;
      var x := q2[n];
      var with, without := q1 + [p] + q2[..n], q1 + q2[..n];
      NormalizeInsert(q1, p, q2[..n]);
      assert q1 + [p] + q2 == with + [x];
      assert q1 + q2 == without + [x];
      NormalizeSnoc(with, x);
      NormalizeSnoc(without, x);
      UpdateAgrees(Normalize(with), Normalize(without), Normalize(q1 + [p] + q2), Normalize(q1 + q2),
                   Lower(p.name), Lower(x.name), x.values);
    }
  }

  /** Two maps that agree off one key still agree there after the same update. */
  lemma UpdateAgrees(a: Lowered, b: Lowered, a': Lowered, b': Lowered, skip: string, key: string, values: seq<string>)
    requires forall k :: k != skip ==> Lookup(a, k) == Lookup(b, k)
    requires a' == a[key := values] && b' == b[key := values]
    ensures forall k :: k != skip ==> Lookup(a', k) == Lookup(b', k)
  {
    forall k | k != skip
      ensures Lookup(a', k) == Lookup(b', k)
    {
      if k != key {
        assert Lookup(a, k) == Lookup(b, k);
      }
    }
  }

  /** One more entry puts its values under its lowered name. */
  lemma NormalizeSnoc(q: QueryParameters, x: Param)
    ensures Normalize(q + [x]) == Normalize(q)[Lower(x.name) := x.values]
  {
    assert (q + [x])[..|q|] == q;
  }

  /**
   * A query made only of unknown names does not fail: it reports every name
   * and compiles to an AND of no clauses, which every record satisfies.
   */
  lemma {:induction false} OnlyUnknownParameters(q: QueryParameters)
    requires forall i :: 0 <= i < |q| ==> Lower(q[i].name) !in AllowedNames
    ensures QueryCriteria(q).criteria == Success(And([]))
    ensures QueryCriteria(q).ignored == Names(q)
    ensures forall r :: Holds(QueryCriteria(q).criteria.value, r)
  {
    if q == [] {
      FieldClausesUnfold(map[]);
    } else {
      var n := |q| - 1;
      OnlyUnknownParameters(q[..n]);
      assert q == q[..n] + [q[n]] + [] && q[..n] + [] == q[..n];
      UnknownParameterIgnored(q[..n], q[n], []);
      assert QueryCriteria(q).criteria == QueryCriteria(q[..n]).criteria;
      NamesSnoc(q);
    }
  }

  /** The lower-cased names of the entries. */
  function Names(q: QueryParameters): set<string> {
    set i | 0 <= i < |q| :: Lower(q[i].name)
  }

  lemma NamesSnoc(q: QueryParameters)
    requires q != []
    ensures Names(q) == Names(q[..|q| - 1]) + {Lower(q[|q| - 1].name)}
  {
    var n := |q| - 1;
    forall k | k in Names(q) ensures k in Names(q[..n]) + {Lower(q[n].name)} {
      var i :| 0 <= i < |q| && Lower(q[i].name) == k;
      if i < n {
        assert Lower(q[..n][i].name) == k;
      }
    }
    forall k | k in Names(q[..n]) ensures k in Names(q) {
      var i :| 0 <= i < n && Lower(q[..n][i].name) == k;
      assert Lower(q[i].name) == k;
    }
  }

  // ---------------------------------------------------------------------
  // Meaning of the compiled filter

  /** The start (or end) dates present as a list: the i-th one is a date and `t` is on the right side of its midnight. */
  predicate InWindow(t: Instant, startDates: Option<seq<string>>, endDates: Option<seq<string>>, i: int) {
    && (startDates.Some? ==>
          0 <= i < |startDates.value| && ParseDate(startDates.value[i]).Some?
          && StartOfDay(ParseDate(startDates.value[i]).value) <= t)
    && (endDates.Some? ==>
          0 <= i < |endDates.value| && ParseDate(endDates.value[i]).Some?
          && t <= StartOfDay(ParseDate(endDates.value[i]).value))
  }

  /**
   * The date condition read from the two lists: none without date keys; no
   * timestamp when a date key is given no values; otherwise a timestamp in
   * one of the windows, the i-th window running from midnight of the i-th
   * start date (if starts are given) to midnight of the i-th end date (if
   * ends are given).
   */
  ghost predicate DatesAdmit(startDates: Option<seq<string>>, endDates: Option<seq<string>>, t: Option<Instant>) {
    if startDates.None? && endDates.None? then true
    else if IsEmpty(startDates) || IsEmpty(endDates) then t.None?
    else t.Some? && exists i :: InWindow(t.value, startDates, endDates, i)
  }

  /** A lowered parameter map read directly as a condition on one record. */
  ghost predicate Selected(m: Lowered, r: DepositProperties) {
    && (Restricts(m, "depositid") ==> r.depositId in m["depositid"])
    && (Restricts(m, "user") ==> r.depositor in m["user"])
    && (Restricts(m, "state") ==> r.depositState in m["state"])
    && (Restricts(m, "deleted") ==> exists v :: v in m["deleted"] && ParseBoolean(v) == r.deleted)
    && DatesAdmit(Lookup(m, "startdate"), Lookup(m, "enddate"), r.depositCreationTimestamp)
  }

  predicate AllHold(cs: seq<Expr>, r: DepositProperties) {
    forall i :: 0 <= i < |cs| ==> Holds(cs[i], r)
  }

  lemma AllHoldConcat(a: seq<Expr>, b: seq<Expr>, r: DepositProperties)
    ensures AllHold(a + b, r) <==> AllHold(a, r) && AllHold(b, r)
  {
    if AllHold(a, r) && AllHold(b, r) {
      forall i | 0 <= i < |a + b| ensures Holds((a + b)[i], r) {
        if i >= |a| {
          assert (a + b)[i] == b[i - |a|];
        }
      }
    }
    if AllHold(a + b, r) {
      forall i | 0 <= i < |a| ensures Holds(a[i], r) {
        assert (a + b)[i] == a[i];
      }
      forall i | 0 <= i < |b| ensures Holds(b[i], r) {
        assert (a + b)[|a| + i] == b[i];
      }
    }
  }

  lemma FieldClausesUnfold(m: Lowered)
    ensures FieldClauses(m, FieldParams)
         == FieldClause(m, "depositid") + FieldClause(m, "user") + FieldClause(m, "state") + FieldClause(m, "deleted")
  {
    var p1, p2, p3 := ["depositid"], ["depositid", "user"], ["depositid", "user", "state"];
    assert FieldParams[..3] == p3 && p3[..2] == p2 && p2[..1] == p1 && p1[..0] == [];
    assert FieldClauses(m, p1) == FieldClause(m, "depositid");
    assert FieldClauses(m, p2) == FieldClauses(m, p1) + FieldClause(m, "user");
    assert FieldClauses(m, p3) == FieldClauses(m, p2) + FieldClause(m, "state");
    assert FieldClauses(m, FieldParams) == FieldClauses(m, p3) + FieldClause(m, "deleted");
  }

  lemma DisjunctionHolds(name: string, values: seq<string>, r: DepositProperties)
    ensures Holds(Disjunction(name, values), r) <==> exists j :: 0 <= j < |values| && Holds(Equality(name, values[j]), r)
  {
    var ds := seq(|values|, i requires 0 <= i < |values| => Equality(name, values[i]));
    assert forall j :: 0 <= j < |values| ==> ds[j] == Equality(name, values[j]);
  }

  /** A text equality parameter with values admits the records whose column holds one of them. */
  lemma TextFieldMeaning(m: Lowered, name: string, r: DepositProperties)
    requires name in m && name != "deleted"
    ensures Holds(Disjunction(name, m[name]), r) <==> ColumnValue(ParamColumn(name), r) in m[name]
  {
    var vs := m[name];
    DisjunctionHolds(name, vs, r);
    if ColumnValue(ParamColumn(name), r) in vs {
      var j :| 0 <= j < |vs| && vs[j] == ColumnValue(ParamColumn(name), r);
      assert Holds(Equality(name, vs[j]), r);
    }
  }

  /** The deleted parameter admits the records whose flag equals the parsed value of one of its texts. */
  lemma DeletedFieldMeaning(m: Lowered, r: DepositProperties)
    requires "deleted" in m
    ensures Holds(Disjunction("deleted", m["deleted"]), r) <==> exists v :: v in m["deleted"] && ParseBoolean(v) == r.deleted
  {
    var vs := m["deleted"];
    DisjunctionHolds("deleted", vs, r);
    if exists v :: v in vs && ParseBoolean(v) == r.deleted {
      var v :| v in vs && ParseBoolean(v) == r.deleted;
      var j :| 0 <= j < |vs| && vs[j] == v;
      assert Holds(Equality("deleted", vs[j]), r);
    }
    if Holds(Disjunction("deleted", vs), r) {
      var j :| 0 <= j < |vs| && Holds(Equality("deleted", vs[j]), r);
      assert vs[j] in vs && ParseBoolean(vs[j]) == r.deleted;
    }
  }

  lemma FieldsMeaning(m: Lowered, r: DepositProperties)
    ensures AllHold(FieldClauses(m, FieldParams), r) <==>
      && (Restricts(m, "depositid") ==> r.depositId in m["depositid"])
      && (Restricts(m, "user") ==> r.depositor in m["user"])
      && (Restricts(m, "state") ==> r.depositState in m["state"])
      && (Restricts(m, "deleted") ==> exists v :: v in m["deleted"] && ParseBoolean(v) == r.deleted)
  {
    FieldClausesUnfold(m);
    var a, b, c, d := FieldClause(m, "depositid"), FieldClause(m, "user"), FieldClause(m, "state"), FieldClause(m, "deleted");
    AllHoldConcat(a + b + c, d, r);
    AllHoldConcat(a + b, c, r);
    AllHoldConcat(a, b, r);
    if Restricts(m, "depositid") {
      TextFieldMeaning(m, "depositid", r);
      SingleClause(a[0], r);
    }
    if Restricts(m, "user") {
      TextFieldMeaning(m, "user", r);
      SingleClause(b[0], r);
    }
    if Restricts(m, "state") {
      TextFieldMeaning(m, "state", r);
      SingleClause(c[0], r);
    }
    if Restricts(m, "deleted") {
      DeletedFieldMeaning(m, r);
      SingleClause(d[0], r);
    }
  }

  lemma SingleClause(e: Expr, r: DepositProperties)
    ensures AllHold([e], r) <==> Holds(e, r)
  {
    assert [e][0] == e;
  }

  /** Every text of the list is a YYYY-MM-DD date. */
  predicate AllParse(texts: seq<string>) {
    forall i :: 0 <= i < |texts| ==> ParseDate(texts[i]).Some?
  }

  lemma AllParseSnoc(texts: seq<string>)
    requires texts != []
    ensures AllParse(texts) <==> AllParse(texts[..|texts| - 1]) && ParseDate(texts[|texts| - 1]).Some?
  {
    var init := texts[..|texts| - 1];
    assert forall i :: 0 <= i < |init| ==> init[i] == texts[i];
  }

  /** The paired ranges are built exactly when every start and end date parses. */
  lemma {:induction false} RangesSucceed(starts: seq<string>, ends: seq<string>)
    requires |starts| == |ends|
    ensures Ranges(starts, ends).Success? <==> AllParse(starts) && AllParse(ends)
  {
    if starts != [] {
      RangesSucceed(starts[..|starts| - 1], ends[..|ends| - 1]);
      AllParseSnoc(starts);
      AllParseSnoc(ends);
    }
  }

  /** Built paired ranges hold one BETWEEN per index, from midnight of the start to midnight of the end. */
  lemma {:induction false} RangesValues(starts: seq<string>, ends: seq<string>, i: int)
    requires |starts| == |ends|
    requires Ranges(starts, ends).Success?
    requires 0 <= i < |starts|
    ensures |Ranges(starts, ends).value| == |starts|
    ensures ParseDate(starts[i]).Some? && ParseDate(ends[i]).Some?
    ensures Ranges(starts, ends).value[i]
            == CreatedBetween(StartOfDay(ParseDate(starts[i]).value), StartOfDay(ParseDate(ends[i]).value))
  {
    var n := |starts| - 1;
    var starts', ends' := starts[..n], ends[..n];
    RangesSnoc(starts, ends);
    if i < n {
      RangesValues(starts', ends', i);
      assert starts'[i] == starts[i] && ends'[i] == ends[i];
    } else {
      ParseInstantValue(starts[n]);
      ParseInstantValue(ends[n]);
    }
  }

  /** Built ranges are the ranges of all pairs but the last, followed by the last pair's BETWEEN. */
  lemma RangesSnoc(starts: seq<string>, ends: seq<string>)
    requires |starts| == |ends| > 0
    requires Ranges(starts, ends).Success?
    ensures var n := |starts| - 1;
      && Ranges(starts[..n], ends[..n]).Success?
      && ParseInstant(starts[n]).Success? && ParseInstant(ends[n]).Success?
      && Ranges(starts, ends).value
         == Ranges(starts[..n], ends[..n]).value + [CreatedBetween(ParseInstant(starts[n]).value, ParseInstant(ends[n]).value)]
  {
  }

  /** A parsed date text stands for 00:00 UTC of that date. */
  lemma ParseInstantValue(text: string)
    requires ParseInstant(text).Success?
    ensures ParseDate(text).Some? && ParseInstant(text).value == StartOfDay(ParseDate(text).value)
  {
  }

  /** A failure of the paired ranges names a start or end text that is not a date. */
  lemma {:induction false} RangesError(starts: seq<string>, ends: seq<string>)
    requires |starts| == |ends|
    requires Ranges(starts, ends).Failure?
    ensures Ranges(starts, ends).error.MalformedDate?
    ensures ParseDate(Ranges(starts, ends).error.text).None?
    ensures Ranges(starts, ends).error.text in starts || Ranges(starts, ends).error.text in ends
  {
    var n := |starts| - 1;
    var starts', ends' := starts[..n], ends[..n];
    if Ranges(starts', ends').Failure? {
      RangesError(starts', ends');
      var text := Ranges(starts', ends').error.text;
      assert text in starts' ==> text in starts;
      assert text in ends' ==> text in ends;
    }
  }

  lemma SingleBoundMeaning(startDates: Option<seq<string>>, endDates: Option<seq<string>>, r: DepositProperties)
    requires (startDates.Some? && |startDates.value| == 1 && endDates.None?)
          || (endDates.Some? && |endDates.value| == 1 && startDates.None?)
    requires DatePredicate(startDates, endDates).Success?
    ensures Holds(DatePredicate(startDates, endDates).value, r)
            <==> DatesAdmit(startDates, endDates, r.depositCreationTimestamp)
  {
    if startDates.Some? {
      LowerBoundMeaning(startDates.value, r);
    } else {
      UpperBoundMeaning(endDates.value, r);
    }
  }

  /** A single startDate and no endDate: created at or after its midnight. */
  lemma LowerBoundMeaning(starts: seq<string>, r: DepositProperties)
    requires |starts| == 1 && ParseDate(starts[0]).Some?
    ensures DatePredicate(Some(starts), None) == Success(CreatedAtLeast(StartOfDay(ParseDate(starts[0]).value)))
    ensures Holds(DatePredicate(Some(starts), None).value, r)
            <==> DatesAdmit(Some(starts), None, r.depositCreationTimestamp)
  {
    var v := StartOfDay(ParseDate(starts[0]).value);
    assert ParseInstant(starts[0]) == Success(v);
    LowerWindow(starts, v, r);
  }

  /** A single endDate and no startDate: created at or before its midnight. */
  lemma UpperBoundMeaning(ends: seq<string>, r: DepositProperties)
    requires |ends| == 1 && ParseDate(ends[0]).Some?
    ensures DatePredicate(None, Some(ends)) == Success(CreatedAtMost(StartOfDay(ParseDate(ends[0]).value)))
    ensures Holds(DatePredicate(None, Some(ends)).value, r)
            <==> DatesAdmit(None, Some(ends), r.depositCreationTimestamp)
  {
    var v := StartOfDay(ParseDate(ends[0]).value);
    assert ParseInstant(ends[0]) == Success(v);
    UpperWindow(ends, v, r);
  }

  /** One startDate only: the single window is from the date's midnight `v` on. */
  lemma LowerWindow(starts: seq<string>, v: Instant, r: DepositProperties)
    requires |starts| == 1 && ParseDate(starts[0]).Some? && v == StartOfDay(ParseDate(starts[0]).value)
    ensures Holds(CreatedAtLeast(v), r) <==> DatesAdmit(Some(starts), None, r.depositCreationTimestamp)
  {
    var t := r.depositCreationTimestamp;
    assert !IsEmpty(Some(starts)) && !IsEmpty(None);
    if t.Some? && v <= t.value {
      assert InWindow(t.value, Some(starts), None, 0);
    }
    if DatesAdmit(Some(starts), None, t) {
      var i :| InWindow(t.value, Some(starts), None, i);
      assert i == 0;
    }
  }

  /** One endDate only: the single window is up to the date's midnight `v`. */
  lemma UpperWindow(ends: seq<string>, v: Instant, r: DepositProperties)
    requires |ends| == 1 && ParseDate(ends[0]).Some? && v == StartOfDay(ParseDate(ends[0]).value)
    ensures Holds(CreatedAtMost(v), r) <==> DatesAdmit(None, Some(ends), r.depositCreationTimestamp)
  {
    var t := r.depositCreationTimestamp;
    assert !IsEmpty(None) && !IsEmpty(Some(ends));
    if t.Some? && t.value <= v {
      assert InWindow(t.value, None, Some(ends), 0);
    }
    if DatesAdmit(None, Some(ends), t) {
      var i :| InWindow(t.value, None, Some(ends), i);
      assert i == 0;
    }
  }

  lemma PairedMeaning(starts: seq<string>, ends: seq<string>, r: DepositProperties)
    requires |starts| == |ends| > 0
    requires Ranges(starts, ends).Success?
    ensures Holds(Or(Ranges(starts, ends).value), r)
            <==> DatesAdmit(Some(starts), Some(ends), r.depositCreationTimestamp)
  {
    var ranges := Ranges(starts, ends).value;
    var t := r.depositCreationTimestamp;
    assert DatesAdmit(Some(starts), Some(ends), t)
           <==> t.Some? && exists i :: InWindow(t.value, Some(starts), Some(ends), i);
    if Holds(Or(ranges), r) {
      var i :| 0 <= i < |ranges| && Holds(ranges[i], r);
      PairedWindow(starts, ends, i, r);
    }
    if t.Some? && exists i :: InWindow(t.value, Some(starts), Some(ends), i) {
      var i :| InWindow(t.value, Some(starts), Some(ends), i);
      PairedWindow(starts, ends, i, r);
    }
  }

  /** The i-th BETWEEN holds exactly when the creation timestamp lies in the i-th window. */
  lemma PairedWindow(starts: seq<string>, ends: seq<string>, i: int, r: DepositProperties)
    requires |starts| == |ends|
    requires Ranges(starts, ends).Success?
    requires 0 <= i < |starts|
    ensures Holds(Ranges(starts, ends).value[i], r)
            <==> r.depositCreationTimestamp.Some? && InWindow(r.depositCreationTimestamp.value, Some(starts), Some(ends), i)
  {
    RangesValues(starts, ends, i);
    var low, high := StartOfDay(ParseDate(starts[i]).value), StartOfDay(ParseDate(ends[i]).value);
    assert Ranges(starts, ends).value[i] == CreatedBetween(low, high);
    var t := r.depositCreationTimestamp;
    assert t.Some? ==> (InWindow(t.value, Some(starts), Some(ends), i) <==> low <= t.value <= high);
  }

  lemma DatePredicateMeaning(startDates: Option<seq<string>>, endDates: Option<seq<string>>, r: DepositProperties)
    requires startDates.Some? || endDates.Some?
    requires DatePredicate(startDates, endDates).Success?
    ensures Holds(DatePredicate(startDates, endDates).value, r)
            <==> DatesAdmit(startDates, endDates, r.depositCreationTimestamp)
  {
    if IsEmpty(startDates) || IsEmpty(endDates) {
    } else if (startDates.Some? && |startDates.value| == 1 && endDates.None?)
           || (endDates.Some? && |endDates.value| == 1 && startDates.None?) {
      SingleBoundMeaning(startDates, endDates, r);
    } else {
      assert DatePredicate(startDates, endDates) == Success(Or(Ranges(startDates.value, endDates.value).value));
      PairedMeaning(startDates.value, endDates.value, r);
    }
  }

  /**
   * The compiled filter selects a record exactly when the record passes
   * every equality parameter that has values (its field equals one of them)
   * and the date condition of the start and end dates.
   */
  lemma QueryCriteriaMeaning(q: QueryParameters, r: DepositProperties)
    requires QueryCriteria(q).criteria.Success?
    ensures Holds(QueryCriteria(q).criteria.value, r) <==> Selected(Normalize(q), r)
  {
    var m := Normalize(q);
    var startDates, endDates := Lookup(m, "startdate"), Lookup(m, "enddate");
    var fields := FieldClauses(m, FieldParams);
    FieldsMeaning(m, r);
    if startDates.Some? || endDates.Some? {
      assert DatePredicate(startDates, endDates).Success?;
      var date := DatePredicate(startDates, endDates).value;
      DatePredicateMeaning(startDates, endDates, r);
      AllHoldConcat([date], fields, r);
      SingleClause(date, r);
      assert QueryCriteria(q).criteria.value == And([date] + fields);
      assert Holds(And([date] + fields), r) <==> AllHold([date] + fields, r);
    } else {
      assert QueryCriteria(q).criteria.value == And(fields);
    }
  }

  // ---------------------------------------------------------------------
  // The date decision table

  /**
   * The counts of start and end dates the policy accepts: one key present
   * with no values (the no-timestamp sentinel); one start and no end key;
   * one end and no start key; or as many starts as ends, at least one.
   */
  predicate DateCountsAccepted(startDates: Option<seq<string>>, endDates: Option<seq<string>>) {
    || (IsEmpty(startDates) && endDates.None?)
    || (IsEmpty(endDates) && startDates.None?)
    || (startDates.Some? && |startDates.value| == 1 && endDates.None?)
    || (endDates.Some? && |endDates.value| == 1 && startDates.None?)
    || (startDates.Some? && endDates.Some? && |startDates.value| == |endDates.value| > 0)
  }

  /** getDatePredicate by outcome: which counts fail with which exception, and that every date given must parse. */
  lemma DatePolicy(startDates: Option<seq<string>>, endDates: Option<seq<string>>)
    ensures DatePredicate(startDates, endDates) == Failure(EmptyDateWithOther)
            <==> startDates.Some? && endDates.Some? && (|startDates.value| == 0 || |endDates.value| == 0)
    ensures DatePredicate(startDates, endDates) == Failure(DateCountMismatch)
            <==> !DateCountsAccepted(startDates, endDates)
                 && !(startDates.Some? && endDates.Some? && (|startDates.value| == 0 || |endDates.value| == 0))
    ensures DatePredicate(startDates, endDates).Success?
            <==> DateCountsAccepted(startDates, endDates)
                 && (startDates.Some? ==> AllParse(startDates.value))
                 && (endDates.Some? ==> AllParse(endDates.value))
    ensures DatePredicate(startDates, endDates).Failure? && DatePredicate(startDates, endDates).error.MalformedDate? ==>
      var text := DatePredicate(startDates, endDates).error.text;
      ParseDate(text).None?
      && ((startDates.Some? && text in startDates.value) || (endDates.Some? && text in endDates.value))
  {
    if IsEmpty(startDates) || IsEmpty(endDates) {
    } else if startDates.Some? && |startDates.value| == 1 && endDates.None? {
      assert AllParse(startDates.value) <==> ParseDate(startDates.value[0]).Some?;
      assert startDates.value[0] in startDates.value;
    } else if endDates.Some? && |endDates.value| == 1 && startDates.None? {
      assert AllParse(endDates.value) <==> ParseDate(endDates.value[0]).Some?;
      assert endDates.value[0] in endDates.value;
    } else if startDates.Some? && endDates.Some? && |startDates.value| == |endDates.value| {
      RangesSucceed(startDates.value, endDates.value);
      if Ranges(startDates.value, endDates.value).Failure? {
        RangesError(startDates.value, endDates.value);
      }
    }
  }

  // ---------------------------------------------------------------------
  // The calls the DAO and its tests make

  lemma LowerDepositId()
    ensures Lower("depositId") == "depositid"
  {
  }

  /** The filter updateDeleteFlag compiles for `id`: one deposit_id equality. */
  function IdFilter(id: string): Expr {
    And([Or([TextEquals(DepositIdColumn, id)])])
  }

  /** The id filter selects exactly the row with that deposit id. */
  lemma IdFilterMeaning(id: string, r: DepositProperties)
    ensures Holds(IdFilter(id), r) <==> r.depositId == id
  {
    var eq := TextEquals(DepositIdColumn, id);
    assert Holds(Or([eq]), r) <==> Holds(eq, r) by {
      assert [eq][0] == eq;
    }
    assert Holds(IdFilter(id), r) <==> Holds(Or([eq]), r) by {
      assert [Or([eq])][0] == Or([eq]);
    }
  }

  /**
   * updateDeleteFlag's query, a single "depositId" entry, is found under the
   * allowed name depositid and compiles to one deposit_id equality.
   */
  lemma DepositIdParameter(id: string)
    ensures QueryCriteria([Param("depositId", [id])]) == Compilation({}, Success(IdFilter(id)))
    ensures forall r :: Holds(QueryCriteria([Param("depositId", [id])]).criteria.value, r) <==> r.depositId == id
  {
    var q := [Param("depositId", [id])];
    LowerDepositId();
    assert q[..0] == [];
    var m := Normalize(q);
    assert m == Normalize(q[..0])[Lower(q[0].name) := q[0].values];
    assert m == map["depositid" := [id]];
    FieldClausesUnfold(m);
    assert Disjunction("depositid", [id]) == Or([TextEquals(DepositIdColumn, id)]);
    assert FieldClauses(m, FieldParams) == [Or([TextEquals(DepositIdColumn, id)])];
    assert Lookup(m, "startdate").None? && Lookup(m, "enddate").None?;
    assert IgnoredNames(m) == {};
    forall r ensures Holds(IdFilter(id), r) <==> r.depositId == id {
      IdFilterMeaning(id, r);
    }
  }

  /** The selection test's query user=[User2, User3] selects exactly the records of those two depositors. */
  lemma UserSelection(r: DepositProperties)
    ensures QueryCriteria([Param("user", ["User2", "User3"])]).criteria.Success?
    ensures Holds(QueryCriteria([Param("user", ["User2", "User3"])]).criteria.value, r)
            <==> r.depositor == "User2" || r.depositor == "User3"
  {
    var q := [Param("user", ["User2", "User3"])];
    assert Lower("user") == "user";
    assert q[..0] == [];
    assert Normalize(q) == Normalize(q[..0])[Lower(q[0].name) := q[0].values];
    assert Normalize(q) == map["user" := ["User2", "User3"]];
    QueryCriteriaMeaning(q, r);
  }

  /** Two start dates against one end date are refused, whatever the dates. */
  lemma MismatchedDateCounts(q: QueryParameters, a: string, b: string, c: string)
    requires q == [Param("startdate", [a, b]), Param("enddate", [c])]
    ensures QueryCriteria(q).criteria == Failure(DateCountMismatch)
  {
    assert Lower("startdate") == "startdate" && Lower("enddate") == "enddate";
    assert q[..1][..0] == [] && q[..1] == [q[0]];
    assert Normalize(q[..1]) == Normalize(q[..1][..0])[Lower(q[0].name) := q[0].values];
    assert Normalize(q) == Normalize(q[..1])[Lower(q[1].name) := q[1].values];
    assert Normalize(q) == map["startdate" := [a, b], "enddate" := [c]];
    DatePolicy(Some([a, b]), Some([c]));
  }
}
