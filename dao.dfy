/**
 * The record store behind DepositPropertiesDAO and the three operations that
 * run a compiled filter against it: findSelection, deleteSelection and
 * updateDeleteFlag.
 *
 * The table is a sequence of records whose deposit ids are unique (the id is
 * the primary key). The database's evaluation of a WHERE clause is `Select`
 * (the matching rows, in table order) and its complement `Reject` (the rows
 * a DELETE leaves behind).
 */
module Store {
  import opened Wrappers
  import opened Deposits
  import opened Criteria
  import opened CriteriaProperties

  /** The rows of `rs` that filter `e` selects, in table order. */
  function Select(rs: seq<DepositProperties>, e: Expr): seq<DepositProperties> {
    if rs == [] then []
    else Select(rs[..|rs| - 1], e) + (if Holds(e, rs[|rs| - 1]) then [rs[|rs| - 1]] else [])
  }

  /** The rows of `rs` that filter `e` does not select, in table order. */
  function Reject(rs: seq<DepositProperties>, e: Expr): seq<DepositProperties> {
    if rs == [] then []
    else Reject(rs[..|rs| - 1], e) + (if Holds(e, rs[|rs| - 1]) then [] else [rs[|rs| - 1]])
  }

  /** The rows of `rs` with `deleted` set to `flag` on those that filter `e` selects. */
  function SetDeleted(rs: seq<DepositProperties>, e: Expr, flag: bool): seq<DepositProperties> {
    seq(|rs|, i requires 0 <= i < |rs| => if Holds(e, rs[i]) then rs[i].(deleted := flag) else rs[i])
  }

  /** No two rows share a deposit id. */
  predicate UniqueIds(rs: seq<DepositProperties>) {
    forall i, j :: 0 <= i < j < |rs| ==> rs[i].depositId != rs[j].depositId
  }

  // ---------------------------------------------------------------------
  // Selection and deletion

  /** A row is selected exactly when it is in the table and the filter holds of it. */
  lemma {:induction false} SelectMembership(rs: seq<DepositProperties>, e: Expr)
    ensures forall x :: x in Select(rs, e) <==> x in rs && Holds(e, x)
  {
    if rs != [] {
      var init := rs[..|rs| - 1];
      SelectMembership(init, e);
      assert rs == init + [rs[|rs| - 1]];
    }
  }

  /** A row survives a delete exactly when it is in the table and the filter does not hold of it. */
  lemma {:induction false} RejectMembership(rs: seq<DepositProperties>, e: Expr)
    ensures forall x :: x in Reject(rs, e) <==> x in rs && !Holds(e, x)
  {
    if rs != [] {
      var init := rs[..|rs| - 1];
      RejectMembership(init, e);
      assert rs == init + [rs[|rs| - 1]];
    }
  }

  /** Selected and surviving rows split the table: together they are all of it, each row once. */
  lemma {:induction false} SelectRejectPartition(rs: seq<DepositProperties>, e: Expr)
    ensures multiset(Select(rs, e)) + multiset(Reject(rs, e)) == multiset(rs)
    ensures |Select(rs, e)| + |Reject(rs, e)| == |rs|
  {
    if rs != [] {
      var n := |rs| - 1;
      var init, last := rs[..n], rs[n];
      SelectRejectPartition(init, e);
      assert rs == init + [last];
      assert multiset(rs) == multiset(init) + multiset{last};
      if Holds(e, last) {
        assert Select(rs, e) == Select(init, e) + [last];
        assert Reject(rs, e) == Reject(init, e);
      } else {
        assert Select(rs, e) == Select(init, e);
        assert Reject(rs, e) == Reject(init, e) + [last];
      }
    }
  }

  /** After a delete with a filter, selecting with the same filter finds nothing. */
  lemma SelectAfterReject(rs: seq<DepositProperties>, e: Expr)
    ensures Select(Reject(rs, e), e) == []
  {
    var rest := Reject(rs, e);
    RejectMembership(rs, e);
    assert forall i :: 0 <= i < |rest| ==> rest[i] in rest;
    SelectNone(rest, e);
  }

  lemma {:induction false} SelectNone(rs: seq<DepositProperties>, e: Expr)
    requires forall i :: 0 <= i < |rs| ==> !Holds(e, rs[i])
    ensures Select(rs, e) == []
  {
    if rs != [] {
      SelectNone(rs[..|rs| - 1], e);
    }
  }

  /** A filter every row satisfies leaves nothing behind. */
  lemma {:induction false} RejectEverything(rs: seq<DepositProperties>, e: Expr)
    requires forall i :: 0 <= i < |rs| ==> Holds(e, rs[i])
    ensures Reject(rs, e) == []
  {
    if rs != [] {
      RejectEverything(rs[..|rs| - 1], e);
    }
  }

  /** The rows a delete leaves keep their deposit ids unique. */
  lemma {:induction false} RejectKeepsUniqueIds(rs: seq<DepositProperties>, e: Expr)
    requires UniqueIds(rs)
    ensures UniqueIds(Reject(rs, e))
  {
    if rs != [] {
      var n := |rs| - 1;
      var init := rs[..n];
      assert UniqueIds(init);
      RejectKeepsUniqueIds(init, e);
      RejectMembership(init, e);
      if !Holds(e, rs[n]) {
        var kept := Reject(init, e);
        forall i | 0 <= i < |kept| ensures kept[i].depositId != rs[n].depositId {
          assert kept[i] in init;
          var j :| 0 <= j < n && init[j] == kept[i];
        }
      }
    }
  }

  // ---------------------------------------------------------------------
  // The deleted flag

  /** Setting the flag changes `deleted` on the selected rows and nothing else. */
  lemma SetDeletedMeaning(rs: seq<DepositProperties>, e: Expr, flag: bool)
    ensures |SetDeleted(rs, e, flag)| == |rs|
    ensures forall i :: 0 <= i < |rs| ==>
      && SetDeleted(rs, e, flag)[i].deleted == (if Holds(e, rs[i]) then flag else rs[i].deleted)
      && SetDeleted(rs, e, flag)[i].(deleted := rs[i].deleted) == rs[i]
  {
  }

  /** With unique ids, the id filter selects at most one row, and one exactly when a row has that id. */
  lemma {:induction false} IdSelectionAtMostOne(rs: seq<DepositProperties>, id: string)
    requires UniqueIds(rs)
    ensures |Select(rs, IdFilter(id))| <= 1
    ensures |Select(rs, IdFilter(id))| == 1 <==> exists i :: 0 <= i < |rs| && rs[i].depositId == id
  {
    if rs != [] {
      var n := |rs| - 1;
      var init := rs[..n];
      assert UniqueIds(init);
      IdSelectionAtMostOne(init, id);
      IdFilterMeaning(id, rs[n]);
      if rs[n].depositId == id {
        forall i | 0 <= i < n ensures !Holds(IdFilter(id), init[i]) {
          IdFilterMeaning(id, init[i]);
        }
        SelectNone(init, IdFilter(id));
      }
      if exists i :: 0 <= i < |rs| && rs[i].depositId == id {
        var i :| 0 <= i < |rs| && rs[i].depositId == id;
        if i < n {
          assert init[i].depositId == id;
        }
      }
    }
  }

  /** Setting the flag keeps the deposit ids, so they stay unique. */
  lemma SetDeletedKeepsUniqueIds(rs: seq<DepositProperties>, e: Expr, flag: bool)
    requires UniqueIds(rs)
    ensures UniqueIds(SetDeleted(rs, e, flag))
  {
    SetDeletedMeaning(rs, e, flag);
    assert forall i :: 0 <= i < |rs| ==> SetDeleted(rs, e, flag)[i].depositId == rs[i].depositId;
  }

  // ---------------------------------------------------------------------
  // The DAO

  class DepositPropertiesDao {
    /** The deposit_properties table. */
    var records: seq<DepositProperties>

    /** The primary key: deposit ids are unique. */
    predicate Valid()
      reads this
    {
      UniqueIds(records)
    }

    constructor(initial: seq<DepositProperties>)
      requires UniqueIds(initial)
      ensures Valid() && records == initial
    {
      records := initial;
    }

    /** findAll: every row. */
    method FindAll() returns (all: seq<DepositProperties>)
      ensures all == records
    {
      all := records;
    }

    /** findById: the row with the given primary key, if there is one. */
    method FindById(id: string) returns (found: Option<DepositProperties>)
      ensures found.Some? ==> found.value in records && found.value.depositId == id
      ensures found.None? ==> forall i :: 0 <= i < |records| ==> records[i].depositId != id
    {
      if i :| 0 <= i < |records| && records[i].depositId == id {
        found := Some(records[i]);
      } else {
        found := None;
      }
    }

    /**
     * findSelection: all rows for an empty map; otherwise the rows the
     * compiled filter selects, or the compiler's exception. The ignored names
     * are those the compiler logs.
     */
    method FindSelection(q: QueryParameters) returns (ignored: set<string>, result: Result<seq<DepositProperties>, Error>)
      ensures q == [] ==> ignored == {} && result == Success(records)
      ensures q != [] ==> ignored == QueryCriteria(q).ignored
      ensures q != [] && QueryCriteria(q).criteria.Failure? ==> result == Failure(QueryCriteria(q).criteria.error)
      ensures q != [] && QueryCriteria(q).criteria.Success? ==>
        && result == Success(Select(records, QueryCriteria(q).criteria.value))
        && (forall x :: x in result.value <==> x in records && Selected(Normalize(q), x))
    {
      if q == [] {
        var all := FindAll();
        return {}, Success(all);
      }
      var criteria;
      ignored, criteria := BuildQueryCriteria(q);
      if criteria.Failure? {
        return ignored, Failure(criteria.error);
      }
      result := Success(Select(records, criteria.value));
      SelectMembership(records, criteria.value);
      forall x {
        QueryCriteriaMeaning(q, x);
      }
    }

    /**
     * deleteSelection: nothing for an empty map; otherwise removes the rows
     * the compiled filter selects and returns how many, or fails with the
     * compiler's exception and removes nothing.
     */
    method DeleteSelection(q: QueryParameters) returns (ignored: set<string>, result: Result<nat, Error>)
      requires Valid()
      modifies this
      ensures Valid()
      ensures q == [] ==> ignored == {} && result == Success(0) && records == old(records)
      ensures q != [] ==> ignored == QueryCriteria(q).ignored
      ensures q != [] && QueryCriteria(q).criteria.Failure? ==>
        result == Failure(QueryCriteria(q).criteria.error) && records == old(records)
      ensures q != [] && QueryCriteria(q).criteria.Success? ==>
        var e := QueryCriteria(q).criteria.value;
        && records == Reject(old(records), e)
        && result == Success(|old(records)| - |records|)
        && (forall x :: x in records <==> x in old(records) && !Selected(Normalize(q), x))
        && Select(records, e) == []
    {
      if q == [] {
        return {}, Success(0);
      }
      var criteria;
      ignored, criteria := BuildQueryCriteria(q);
      if criteria.Failure? {
        return ignored, Failure(criteria.error);
      }
      var before := records;
      RejectKeepsUniqueIds(before, criteria.value);
      SelectRejectPartition(before, criteria.value);
      RejectMembership(before, criteria.value);
      SelectAfterReject(before, criteria.value);
      forall x {
        QueryCriteriaMeaning(q, x);
      }
      records := Reject(before, criteria.value);
      result := Success(|before| - |records|);
    }

    /**
     * updateDeleteFlag: compiles the single-entry map depositId = [id], sets
     * `deleted` on the rows it selects and returns how many (at most one, as
     * the id is the primary key).
     */
    method UpdateDeleteFlag(id: string, deleted: bool) returns (count: nat)
      requires Valid()
      modifies this
      ensures Valid()
      ensures |records| == |old(records)|
      ensures forall i :: 0 <= i < |records| ==>
        records[i] == if old(records)[i].depositId == id then old(records)[i].(deleted := deleted) else old(records)[i]
      ensures count == |Select(old(records), IdFilter(id))| && count <= 1
      ensures count == 1 <==> exists i :: 0 <= i < |old(records)| && old(records)[i].depositId == id
    {
      var ignored, criteria := BuildQueryCriteria([Param("depositId", [id])]);
      DepositIdParameter(id);
      var e := criteria.value;
      assert e == IdFilter(id);
      var before := records;
      SetDeletedMeaning(before, e, deleted);
      SetDeletedKeepsUniqueIds(before, e, deleted);
      IdSelectionAtMostOne(before, id);
      forall i | 0 <= i < |before| {
        IdFilterMeaning(id, before[i]);
      }
      count := |Select(before, e)|;
      records := SetDeleted(before, e, deleted);
    }

    /**
     * deleteSelection with the guard its comment intends: a map that
     * constrains nothing (empty, or made only of unknown names and empty
     * equality lists) deletes nothing.
     */
    method DeleteSelectionGuarded(q: QueryParameters) returns (ignored: set<string>, result: Result<nat, Error>)
      requires Valid()
      modifies this
      ensures Valid()
      ensures (q == [] || Unconstrained(q)) ==> result == Success(0) && records == old(records)
      ensures q == [] ==> ignored == {}
      ensures q != [] ==> ignored == QueryCriteria(q).ignored
      ensures |records| < |old(records)| ==> q != [] && !Unconstrained(q)
      ensures q != [] && !Unconstrained(q) ==>
        && (QueryCriteria(q).criteria.Failure? ==>
              result == Failure(QueryCriteria(q).criteria.error) && records == old(records))
        && (QueryCriteria(q).criteria.Success? ==>
              && records == Reject(old(records), QueryCriteria(q).criteria.value)
              && result == Success(|old(records)| - |records|))
    {
      if q == [] {
        return {}, Success(0);
      }
      var compiledIgnored, criteria := BuildQueryCriteria(q);
      if criteria == Success(And([])) {
        return compiledIgnored, Success(0);
      }
      ignored, result := DeleteSelection(q);
    }
  }

  // ---------------------------------------------------------------------
  // The emptiness guard of deleteSelection

  /**
   * deleteSelection guards only against an empty map: a non-empty map whose
   * names are all unknown compiles to an AND of no clauses, so every row is
   * deleted.
   */
  lemma UnknownOnlyDeletesAll(rs: seq<DepositProperties>, q: QueryParameters)
    requires q != []
    requires forall i :: 0 <= i < |q| ==> Lower(q[i].name) !in AllowedNames
    ensures QueryCriteria(q).criteria == Success(And([]))
    ensures Reject(rs, QueryCriteria(q).criteria.value) == []
  {
    OnlyUnknownParameters(q);
    RejectEverything(rs, And([]));
  }

  /**
   * The delete test's table: two rows of User1, then two of User2 and two of
   * User3. Deleting user = [User2, User3] removes four rows and keeps the
   * two of User1.
   */
  lemma DeleteUsersExample(rs: seq<DepositProperties>)
    requires |rs| == 6
    requires rs[0].depositor == "User1" && rs[1].depositor == "User1"
    requires rs[2].depositor == "User2" && rs[3].depositor == "User2"
    requires rs[4].depositor == "User3" && rs[5].depositor == "User3"
    ensures QueryCriteria([Param("user", ["User2", "User3"])]).criteria.Success?
    ensures Reject(rs, QueryCriteria([Param("user", ["User2", "User3"])]).criteria.value) == rs[..2]
    ensures |Select(rs, QueryCriteria([Param("user", ["User2", "User3"])]).criteria.value)| == 4
  {
    var e := QueryCriteria([Param("user", ["User2", "User3"])]).criteria.value;
    forall i | 0 <= i < 6 ensures Holds(e, rs[i]) <==> 2 <= i {
      UserSelection(rs[i]);
    }
    assert rs[..6] == rs;
    assert rs[..1][..0] == [];
    assert Reject(rs[..1], e) == [rs[0]];
    assert rs[..2][..1] == rs[..1];
    assert Reject(rs[..2], e) == rs[..2];
    assert rs[..3][..2] == rs[..2];
    assert Reject(rs[..3], e) == rs[..2];
    assert rs[..4][..3] == rs[..3];
    assert Reject(rs[..4], e) == rs[..2];
    assert rs[..5][..4] == rs[..4];
    assert Reject(rs[..5], e) == rs[..2];
    assert rs[..6][..5] == rs[..5];
    SelectRejectPartition(rs, e);
  }

  /** The compiled filter constrains nothing: an AND of no clauses. */
  predicate Unconstrained(q: QueryParameters) {
    QueryCriteria(q).criteria == Success(And([]))
  }
}
