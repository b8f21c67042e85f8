# DepositPropertiesDAO: query-parameter compiler and record store

This project models the data-access core of dd-manage-deposit, a service that keeps one
`deposit_properties` record per deposit. `DepositPropertiesDAO` takes a caller's map from
parameter names to lists of strings. It compiles the map into a boolean filter over the
records, then selects rows with it, deletes rows with it, or uses it to set the soft-delete
flag of one deposit.

The model has five modules:

- `Wrappers` (wrappers.dfy): `Option` and `Result`. A Java exception becomes a `Failure`.
- `CalendarDate` (calendar_date.dfy): the strict `YYYY-MM-DD` parser (ISO 8601 calendar date,
  extended format, section 5.2.1.1 of ISO 8601:2004, with the strict resolver of
  `ISO_LOCAL_DATE`). It also has the `LocalDate.toEpochDay` formula and the instant at 00:00 UTC
  of a date. The formula is proved equal to a day-by-day count and to be strictly increasing in
  calendar order.
- `Deposits` (deposits.dfy): the record, the filter tree `Expr` (AND, OR, equalities, `>=`,
  `<=`, `BETWEEN`, `IS NULL` on the creation timestamp), and `Holds`, the WHERE-clause meaning
  of a filter. The tree has no negation, so SQL's "unknown" for an absent timestamp reads as
  false.
- `Criteria` (criteria.dfy): the compiler (`buildQueryCriteria`, `getDatePredicate`,
  `isEmpty`, `parseDate`).
  - `QueryCriteria` and `DatePredicate` are the compiler as functions.
  - `BuildQueryCriteria`, `GetDatePredicate`, `BetweenRanges`, `LowerCaseKeys`,
    `EqualityDisjunction` and `AppendFieldClauses` follow the source's loops and are proved to
    compute those functions.
  - The caller's map is a sequence of entries in the map's iteration order. Lower-casing puts
    the entries into a fresh map in that order, so of two keys that lower-case alike the later
    one wins.
- `CriteriaProperties` (criteria_properties.dfy): what a compiled filter means (`Selected`,
  `DatesAdmit`), the date decision table by outcome, key normalisation, ignored keys, and the
  calls the DAO and its tests make.
- `Store` (dao.dfy): the table as a sequence of records with unique deposit ids, and the class
  `DepositPropertiesDao` with `findAll`, `findById`, `findSelection`, `deleteSelection` and
  `updateDeleteFlag`.

Three behaviours of the code that a reader might not expect, all modelled as written:

- `parseBoolean` never fails (DepositPropertiesDAO.java:143). A `deleted` value of `"true"` in
  any letter case is true; every other text, `"yes"` and the empty text included, is false.
- `updateDeleteFlag` has no guard of its own (DepositPropertiesDAO.java:195-207). It always
  compiles the fixed one-entry map `depositId = [id]`, so its filter always has one clause.
- `deleteSelection` guards only the raw map (DepositPropertiesDAO.java:96-97). The comment on
  the guard says that without query parameters every record would be deleted. A non-empty map
  whose names are all unknown passes the guard and compiles to an AND of no clauses, which
  deletes every record (see Findings).

## Model

| member | source | states |
|---|---|---|
| CalendarDate.ParseDate | src/main/java/nl/knaw/dans/managedeposit/db/DepositPropertiesDAO.java:188-189 | Only real dates are accepted: year 0000-9999, month 1-12, day within its month, February 29 only in leap years. |
| CalendarDate.ParseFormat | src/main/java/nl/knaw/dans/managedeposit/db/DepositPropertiesDAO.java:189 | The YYYY-MM-DD text of every valid date parses back to that date. |
| CalendarDate.FormatParse | src/main/java/nl/knaw/dans/managedeposit/db/DepositPropertiesDAO.java:189 | Every accepted text is the canonical YYYY-MM-DD text of the date it yields: no other spelling parses. |
| CalendarDate.LeapDays | src/main/java/nl/knaw/dans/managedeposit/db/DepositPropertiesDAO.java:190 | The year terms of the toEpochDay formula equal the number of days in all earlier years, counted year by year with the Gregorian leap rule. |
| CalendarDate.MonthDays | src/main/java/nl/knaw/dans/managedeposit/db/DepositPropertiesDAO.java:190 | The month terms of the formula, with the February correction, equal the days of the earlier months of that year. |
| CalendarDate.EpochDay | src/main/java/nl/knaw/dans/managedeposit/db/DepositPropertiesDAO.java:190-191 | The toEpochDay closed formula equals the day-by-day count of days since 0000-01-01, less the count for 1970-01-01: the number of days the date lies after 1970-01-01. |
| CalendarDate.EpochOrigin | src/main/java/nl/knaw/dans/managedeposit/db/DepositPropertiesDAO.java:190-191 | 1970-01-01 lies 719528 days after 0000-01-01, so it is day 0 of the epoch count. |
| CalendarDate.StartOfDay | src/main/java/nl/knaw/dans/managedeposit/db/DepositPropertiesDAO.java:190-191 | 00:00 UTC of a date, as an instant, is a whole number of days (of 86400 s each) after 1970-01-01T00:00Z: exactly as many days as the date lies after 1970-01-01. |
| CalendarDate.DayCountIncreasing | src/main/java/nl/knaw/dans/managedeposit/db/DepositPropertiesDAO.java:190 | A date earlier in the calendar has a smaller day count. |
| CalendarDate.EpochDayOrder | src/main/java/nl/knaw/dans/managedeposit/db/DepositPropertiesDAO.java:190-192 | Day numbers order dates exactly as the calendar does, and two dates have the same day number only if they are the same date. |
| CalendarDate.DayBoundaries | src/main/java/nl/knaw/dans/managedeposit/db/DepositPropertiesDAO.java:188-193 | An instant on day c is at or after 00:00 UTC of s exactly when c is not before s. It is at or before 00:00 UTC of e exactly when c is before e, or when it is midnight of e itself: the end date admits only its first instant. |
| Criteria.Normalize | src/main/java/nl/knaw/dans/managedeposit/db/DepositPropertiesDAO.java:110-111 | Every key of the lowered map is the lower-cased name of one of the caller's entries. |
| Criteria.ParseBoolean | src/main/java/nl/knaw/dans/managedeposit/db/DepositPropertiesDAO.java:143 | parseBoolean is true exactly for "true" in any letter case; every other text, the empty one included, is false and never an error. |
| Criteria.IsEmpty | src/main/java/nl/knaw/dans/managedeposit/db/DepositPropertiesDAO.java:183-186 | A missing list (null) is not empty; a present list is empty exactly when it has no values. |
| Criteria.ParseInstant | src/main/java/nl/knaw/dans/managedeposit/db/DepositPropertiesDAO.java:188-193 | parseDate succeeds exactly when the text is a valid YYYY-MM-DD date, and otherwise fails naming that text. On success the instant is 00:00 UTC of the date: the number of days after 1970-01-01 times the nanoseconds of a day. |
| Criteria.Ranges | src/main/java/nl/knaw/dans/managedeposit/db/DepositPropertiesDAO.java:170-176 | The paired ranges, when built, hold one BETWEEN per pair of dates. A failure is a malformed date whose text does not parse. |
| Criteria.DatePredicate | src/main/java/nl/knaw/dans/managedeposit/db/DepositPropertiesDAO.java:156-181 | Called with neither list, it falls through to the count-mismatch exception (buildQueryCriteria never calls it so). A compiled clause is IS NULL, a single >=, a single <=, or an OR with one BETWEEN per start date and at least one of them. A malformed-date failure names a text that does not parse. |
| Criteria.QueryCriteria | src/main/java/nl/knaw/dans/managedeposit/db/DepositPropertiesDAO.java:109-154 | Compilation fails only when startdate or enddate is among the lowered keys. A compiled filter is an AND. Every ignored name is outside the allowed names and is the lower-cased name of one of the caller's entries. |
| Criteria.RangesStop | src/main/java/nl/knaw/dans/managedeposit/db/DepositPropertiesDAO.java:171-174 | Once the pair at some index fails to parse, the paired ranges fail with that same error whatever follows. |
| Criteria.GetDatePredicate | src/main/java/nl/knaw/dans/managedeposit/db/DepositPropertiesDAO.java:156-181 | The branch chain of getDatePredicate computes the decision table `DatePredicate`, whose outcomes `CriteriaProperties.DatePolicy` characterises. |
| Criteria.BetweenRanges | src/main/java/nl/knaw/dans/managedeposit/db/DepositPropertiesDAO.java:170-176 | The indexed loop computes `Ranges`: one BETWEEN per index, parsing the start and then the end of each pair, and stopping at the first malformed date. |
| Criteria.LowerCaseKeys | src/main/java/nl/knaw/dans/managedeposit/db/DepositPropertiesDAO.java:110-111 | The forEach over the entries builds `Normalize`, the lower-cased map whose properties `CriteriaProperties.NormalizeKeys` and `NormalizeLastWins` state. |
| Criteria.EqualityDisjunction | src/main/java/nl/knaw/dans/managedeposit/db/DepositPropertiesDAO.java:138-150 | The inner forEach builds the OR of one equality per value, in value order; for `deleted` each value goes through parseBoolean. |
| Criteria.AppendFieldClauses | src/main/java/nl/knaw/dans/managedeposit/db/DepositPropertiesDAO.java:136-152 | The outer forEach appends the field clauses of depositid, user, state and deleted, in that order, after the clauses already collected. |
| Criteria.BuildQueryCriteria | src/main/java/nl/knaw/dans/managedeposit/db/DepositPropertiesDAO.java:109-154 | buildQueryCriteria returns the ignored names and the filter (or the exception) of `QueryCriteria`, whose meaning `CriteriaProperties.QueryCriteriaMeaning` gives. |
| CriteriaProperties.NormalizeKeys | src/main/java/nl/knaw/dans/managedeposit/db/DepositPropertiesDAO.java:110-111 | The keys of the lowered map are exactly the lower-cased names of the caller's entries. |
| CriteriaProperties.NormalizeLastWins | src/main/java/nl/knaw/dans/managedeposit/db/DepositPropertiesDAO.java:111 | Of the entries whose names lower-case alike, the last in iteration order supplies the values. |
| CriteriaProperties.CaseInsensitiveNames | src/main/java/nl/knaw/dans/managedeposit/db/DepositPropertiesDAO.java:110-111 | Two queries whose names differ only in letter case compile to the same ignored names and the same filter. |
| CriteriaProperties.IgnoredParameters | src/main/java/nl/knaw/dans/managedeposit/db/DepositPropertiesDAO.java:119-126 | The ignored names are exactly the lower-cased names outside {depositid, user, state, deleted, startdate, enddate}, whether or not compilation fails. |
| CriteriaProperties.FieldClausesAgree | src/main/java/nl/knaw/dans/managedeposit/db/DepositPropertiesDAO.java:136-152 | The field clauses depend only on the lists found under the allowed names. |
| CriteriaProperties.NormalizeInsert | src/main/java/nl/knaw/dans/managedeposit/db/DepositPropertiesDAO.java:110-111 | An entry inserted anywhere in iteration order changes the lowered map only under its own lowered name, which it always puts there. |
| CriteriaProperties.UnknownKeyAgrees | src/main/java/nl/knaw/dans/managedeposit/db/DepositPropertiesDAO.java:119-152 | Two lowered maps that differ only under one name outside the allow-list give the same field clauses and date lists, and the ignored names differ by that name alone. |
| CriteriaProperties.UnknownParameterIgnored | src/main/java/nl/knaw/dans/managedeposit/db/DepositPropertiesDAO.java:110-126 | An entry with an unknown name, wherever it comes in iteration order, leaves the filter (or the exception) unchanged and only adds its name to the ignored names. |
| CriteriaProperties.OnlyUnknownParameters | src/main/java/nl/knaw/dans/managedeposit/db/DepositPropertiesDAO.java:121-153 | A query made only of unknown names never fails. It reports all of its names and compiles to an AND of no clauses, which every record satisfies. |
| CriteriaProperties.AllHoldConcat | src/main/java/nl/knaw/dans/managedeposit/db/DepositPropertiesDAO.java:153 | Concatenated clause lists all hold exactly when each part's clauses all hold. |
| CriteriaProperties.FieldClausesUnfold | src/main/java/nl/knaw/dans/managedeposit/db/DepositPropertiesDAO.java:113-118 | The field clauses are those of depositid, user, state and deleted, in that order. Each is one OR when the key has values and nothing when it is absent or empty. |
| CriteriaProperties.DisjunctionHolds | src/main/java/nl/knaw/dans/managedeposit/db/DepositPropertiesDAO.java:141-150 | The OR of a parameter holds exactly when the equality of one of its values holds. |
| CriteriaProperties.TextFieldMeaning | src/main/java/nl/knaw/dans/managedeposit/db/DepositPropertiesDAO.java:146 | A depositid, user or state parameter admits exactly the records whose column equals one of its values. |
| CriteriaProperties.DeletedFieldMeaning | src/main/java/nl/knaw/dans/managedeposit/db/DepositPropertiesDAO.java:142-143 | The deleted parameter admits exactly the records whose flag equals the parsed value of one of its texts. |
| CriteriaProperties.FieldsMeaning | src/main/java/nl/knaw/dans/managedeposit/db/DepositPropertiesDAO.java:136-153 | The field clauses all hold exactly when each parameter that has values admits the record; absent or empty parameters restrict nothing. |
| CriteriaProperties.RangesSucceed | src/main/java/nl/knaw/dans/managedeposit/db/DepositPropertiesDAO.java:170-175 | The paired ranges are built exactly when every start date and every end date parses. |
| CriteriaProperties.RangesValues | src/main/java/nl/knaw/dans/managedeposit/db/DepositPropertiesDAO.java:171-174 | Built ranges hold one BETWEEN per index, from 00:00 UTC of the i-th start to 00:00 UTC of the i-th end. |
| CriteriaProperties.RangesSnoc | src/main/java/nl/knaw/dans/managedeposit/db/DepositPropertiesDAO.java:171-175 | Built ranges are the ranges of all pairs but the last, followed by the BETWEEN of the last start and end. |
| CriteriaProperties.ParseInstantValue | src/main/java/nl/knaw/dans/managedeposit/db/DepositPropertiesDAO.java:188-193 | A text that parseDate accepts is a valid date and yields 00:00 UTC of it. |
| CriteriaProperties.RangesError | src/main/java/nl/knaw/dans/managedeposit/db/DepositPropertiesDAO.java:172-173 | A failure of the paired ranges names a start or end text that is not a date. |
| CriteriaProperties.SingleBoundMeaning | src/main/java/nl/knaw/dans/managedeposit/db/DepositPropertiesDAO.java:163-168 | A single start (or end) admits exactly the records created at or after (or at or before) 00:00 UTC of that date. |
| CriteriaProperties.LowerBoundMeaning | src/main/java/nl/knaw/dans/managedeposit/db/DepositPropertiesDAO.java:163-164 | A single start date that parses compiles to `>=` 00:00 UTC of it, which admits exactly the records `DatesAdmit` describes. |
| CriteriaProperties.UpperBoundMeaning | src/main/java/nl/knaw/dans/managedeposit/db/DepositPropertiesDAO.java:166-167 | A single end date that parses compiles to `<=` 00:00 UTC of it, which admits exactly the records `DatesAdmit` describes. |
| CriteriaProperties.LowerWindow | src/main/java/nl/knaw/dans/managedeposit/db/DepositPropertiesDAO.java:164 | `>=` the midnight of the one start date holds exactly when the timestamp lies in the single window. |
| CriteriaProperties.UpperWindow | src/main/java/nl/knaw/dans/managedeposit/db/DepositPropertiesDAO.java:167 | `<=` the midnight of the one end date holds exactly when the timestamp lies in the single window. |
| CriteriaProperties.PairedWindow | src/main/java/nl/knaw/dans/managedeposit/db/DepositPropertiesDAO.java:174 | The i-th BETWEEN holds exactly when the creation timestamp lies in the i-th window. |
| CriteriaProperties.PairedMeaning | src/main/java/nl/knaw/dans/managedeposit/db/DepositPropertiesDAO.java:169-177 | The OR of BETWEENs admits exactly the records whose creation timestamp lies in the window of some index. |
| CriteriaProperties.DatePredicateMeaning | src/main/java/nl/knaw/dans/managedeposit/db/DepositPropertiesDAO.java:156-181 | A date clause that compiles admits exactly the records `DatesAdmit` describes. An empty date key means "no timestamp"; otherwise the timestamp must fall in one of the windows. |
| CriteriaProperties.QueryCriteriaMeaning | src/main/java/nl/knaw/dans/managedeposit/db/DepositPropertiesDAO.java:109-154 | A compiled filter selects a record exactly when every equality parameter with values admits it and the date condition admits its creation timestamp. |
| CriteriaProperties.DatePolicy | src/main/java/nl/knaw/dans/managedeposit/db/DepositPropertiesDAO.java:158-180 | getDatePredicate by outcome:<br>• both keys present with one empty fails as "empty with other";<br>• counts fitting no row of the table fail as a count mismatch;<br>• success exactly when the counts fit and every given date parses;<br>• a malformed-date failure names a given text that does not parse. |
| CriteriaProperties.MismatchedDateCounts | src/main/java/nl/knaw/dans/managedeposit/db/DepositPropertiesDAO.java:178-179 | Two start dates with one end date are refused with the count-mismatch exception, whatever the dates. |
| CriteriaProperties.IdFilterMeaning | src/main/java/nl/knaw/dans/managedeposit/db/DepositPropertiesDAO.java:200 | The deposit_id filter admits exactly the record with that id. |
| CriteriaProperties.DepositIdParameter | src/test/java/nl/knaw/dans/managedeposit/db/DepositPropertiesDAOTest.java:103-108 | The map `depositId = [id]` is found under the allowed name depositid. It ignores nothing and compiles to one deposit_id equality, which admits exactly the record with that id. |
| CriteriaProperties.UserSelection | src/test/java/nl/knaw/dans/managedeposit/db/DepositPropertiesDAOFindSelectionTest.java:59-84 | The query user = [User2, User3] compiles and selects exactly the records of those two depositors. |
| Store.SelectMembership | src/main/java/nl/knaw/dans/managedeposit/db/DepositPropertiesDAO.java:86-91 | A row is selected exactly when it is in the table and the filter holds of it. |
| Store.RejectMembership | src/main/java/nl/knaw/dans/managedeposit/db/DepositPropertiesDAO.java:99-106 | A row survives a delete exactly when it is in the table and the filter does not hold of it. |
| Store.SelectRejectPartition | src/main/java/nl/knaw/dans/managedeposit/db/DepositPropertiesDAO.java:104-106 | Selected and surviving rows together are the table as a multiset, so the number deleted is the number selected. |
| Store.SelectAfterReject | src/test/java/nl/knaw/dans/managedeposit/db/DepositPropertiesDAODeleteSelectionTest.java:66-67 | After a delete, selecting with the same filter finds nothing. |
| Store.SelectNone | src/main/java/nl/knaw/dans/managedeposit/db/DepositPropertiesDAO.java:89-91 | A filter that holds of no row selects nothing. |
| Store.RejectEverything | src/main/java/nl/knaw/dans/managedeposit/db/DepositPropertiesDAO.java:104-106 | A filter that holds of every row leaves nothing behind. |
| Store.RejectKeepsUniqueIds | src/main/java/nl/knaw/dans/managedeposit/db/DepositPropertiesDAO.java:104-106 | Deleting rows keeps the deposit ids unique. |
| Store.SetDeletedMeaning | src/main/java/nl/knaw/dans/managedeposit/db/DepositPropertiesDAO.java:201-203 | Setting the flag keeps the row count. It sets `deleted` on the selected rows, leaves it on the others, and changes no other field. |
| Store.IdSelectionAtMostOne | src/main/java/nl/knaw/dans/managedeposit/db/DepositPropertiesDAO.java:200-206 | With unique ids the deposit_id filter selects at most one row, and exactly one when a row has that id. |
| Store.SetDeletedKeepsUniqueIds | src/main/java/nl/knaw/dans/managedeposit/db/DepositPropertiesDAO.java:203 | Setting the flag keeps the deposit ids unique. |
| Store.DepositPropertiesDao.FindAll | src/main/java/nl/knaw/dans/managedeposit/db/DepositPropertiesDAO.java:76-78 | findAll returns every row of the table. |
| Store.DepositPropertiesDao.FindById | src/main/java/nl/knaw/dans/managedeposit/db/DepositPropertiesDAO.java:56-58 | findById returns a row with that id when one exists, and nothing only when no row has it. |
| Store.DepositPropertiesDao.FindSelection | src/main/java/nl/knaw/dans/managedeposit/db/DepositPropertiesDAO.java:80-92 | An empty map returns every row and logs nothing. Otherwise it returns the compiler's ignored names and either the compiler's exception or the rows of the table the compiled filter holds of, in table order (`Select`); a row is among them exactly when the parameters admit it (`Selected`). |
| Store.DepositPropertiesDao.DeleteSelection | src/main/java/nl/knaw/dans/managedeposit/db/DepositPropertiesDAO.java:94-107 | An empty map deletes nothing and returns 0. A failing compilation deletes nothing. Otherwise it removes exactly the rows the parameters admit, keeps the rest in order, returns how many it removed, keeps ids unique, and leaves no row that the same filter selects. |
| Store.DepositPropertiesDao.UpdateDeleteFlag | src/main/java/nl/knaw/dans/managedeposit/db/DepositPropertiesDAO.java:195-207 | Sets `deleted` on the row whose id is `id` and changes nothing else. It returns the number of rows selected, which is at most 1, and exactly 1 when such a row exists. |
| Store.DepositPropertiesDao.DeleteSelectionGuarded | src/main/java/nl/knaw/dans/managedeposit/db/DepositPropertiesDAO.java:96-97 | A map that constrains nothing (empty, or compiling to an AND of no clauses) deletes nothing and returns 0. An empty map ignores no names; any other map reports the compiler's ignored names. Any deletion implies that the filter has a clause. Otherwise it behaves as deleteSelection. |
| Store.UnknownOnlyDeletesAll | src/main/java/nl/knaw/dans/managedeposit/db/DepositPropertiesDAO.java:96-104 | A non-empty map of unknown names passes the emptiness guard and compiles to an AND of no clauses, so the delete leaves no row. |
| Store.DeleteUsersExample | src/test/java/nl/knaw/dans/managedeposit/db/DepositPropertiesDAODeleteSelectionTest.java:38-64 | In the test's table of six rows, deleting user = [User2, User3] removes four rows and keeps the two of User1. |

## Left out

- create, save, merge and delete (DepositPropertiesDAO.java:60-74) are one-line wrappers over the Hibernate session. Only the table they act on is modelled.
- The JPA criteria API, the SQL text and the order of bind parameters are not modelled. The filter is the `Expr` tree and `Holds` is its meaning.
- Logging is not modelled as output. The names that would be logged are returned as a set.
- Null list values in the caller's map are not modelled. A key is either absent or maps to a list.
- `Lower`, `SameIgnoringCase`: letter case is ASCII only. The locale-dependent and Unicode case mappings of `String.toLowerCase` and `equalsIgnoreCase` are not modelled.
- `CalendarDate.ParseDate`: accepts only years 0000-9999. `ISO_LOCAL_DATE` also accepts signed years and years of more than four digits with a sign; those are not modelled. Every parse failure is `MalformedDate(text)`; the details of `DateTimeParseException` are not modelled.
- Timestamps are whole nanoseconds since the epoch. Database column precision and stored time-zone offsets are not modelled. Date comparisons are modelled as instant order; how the database compares values of the creation-timestamp column's own type (the entity mapping is not part of this model) is not modelled.
- Transactions and concurrency are not modelled. Result order is modelled as table order; the database promises none.
- `Store.DepositPropertiesDao.Valid` (unique deposit ids) stands for the primary key. Other database constraints are not modelled.

## Findings

| source | as written | input that shows it | evidently intended | confidence | as-written member | corrected member |
|---|---|---|---|---|---|---|
| src/main/java/nl/knaw/dans/managedeposit/db/DepositPropertiesDAO.java:96-97 | deleteSelection's guard only checks whether the caller's map is empty | the map `{"bogus": ["x"]}` is non-empty and passes the guard. It compiles to an AND of no clauses, so the DELETE removes every row. | a map that constrains nothing deletes nothing, as the comment on the guard says | not executed | Store.UnknownOnlyDeletesAll | Store.DepositPropertiesDao.DeleteSelectionGuarded |
