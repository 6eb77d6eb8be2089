/**
 * Handlers whose code, as written, departs from what they evidently
 * mean, next to the members the rest of the model uses instead: the two
 * problem listings (EntityStore.Store.ListUserProblems and
 * EntityStore.Store.ListAllProblems) and the rejection of a company
 * (EntityStore.Store.RejectCompany).
 *
 * Each listing takes the entries the handler has gathered, in store
 * order, and yields the response, or `None` when the handler raises
 * instead of answering.
 */
module AsWritten {
  import opened Common
  import EntityStore

  /** An entry of a user's listing as written: one review text, not a list. */
  datatype WrittenUserEntry = WrittenUserEntry(description: Bytes, review: Bytes, company: Bytes)

  /** An entry of the administrators' listing as written: the company name is dereferenced. */
  datatype WrittenEntry = WrittenEntry(description: Bytes, reviews: seq<Bytes>, user: Bytes, company: Bytes)

  /**
   * A user's listing as written. The entry's review field is the text of
   * the review last bound by the inner loop, which may belong to an
   * earlier problem (`last`); with none bound yet, or with no company,
   * the handler raises.
   */
  function UserListingAsWritten(entries: seq<EntityStore.UserProblemEntry>, last: Option<Bytes>): (r: Option<seq<WrittenUserEntry>>)
    ensures r.Some? ==> |r.value| == |entries|
    ensures r.Some? ==> forall k :: 0 <= k < |entries| ==>
      && entries[k].company.Some?
      && r.value[k].description == entries[k].description
      && r.value[k].company == entries[k].company.value
    decreases |entries|
  {
    if entries == [] then Some([])
    else
      var e := entries[0];
      var bound := if |e.reviews| > 0 then Some(e.reviews[|e.reviews| - 1]) else last;
      if bound.None? || e.company.None? then None
      else
        match UserListingAsWritten(entries[1..], bound)
        case None => None
        case Some(rest) => Some([WrittenUserEntry(e.description, bound.value, e.company.value)] + rest)
  }

  /** A problem with two reviews is listed with only the second one. */
  lemma UserListingDropsReviews()
    ensures var entries := [EntityStore.UserProblemEntry([100], [[1], [2]], Some([3]))];
      UserListingAsWritten(entries, None) == Some([WrittenUserEntry([100], [2], [3])])
  {
    var entries := [EntityStore.UserProblemEntry([100], [[1], [2]], Some([3]))];
    assert entries[1..] == [];
    assert UserListingAsWritten([], Some([2])) == Some([]);
    assert [WrittenUserEntry([100], [2], [3])] + [] == [WrittenUserEntry([100], [2], [3])];
  }

  /** A user whose first problem has no review gets no answer at all. */
  lemma UserListingFailsBeforeAnyReview()
    ensures UserListingAsWritten([EntityStore.UserProblemEntry([100], [], Some([3]))], None).None?
  {
  }

  /**
   * The review text the inner loop has left bound once the first `n`
   * problems are listed: the last review of the latest of them that has
   * one, or `last` if none has.
   */
  function BoundAfter(entries: seq<EntityStore.UserProblemEntry>, last: Option<Bytes>, n: nat): Option<Bytes>
    requires n <= |entries|
  {
    if n == 0 then last
    else if |entries[n - 1].reviews| > 0 then Some(entries[n - 1].reviews[|entries[n - 1].reviews| - 1])
    else BoundAfter(entries, last, n - 1)
  }

  /** After the first problem, listing the rest starts from what it left bound. */
  lemma {:induction false} BoundAfterRest(entries: seq<EntityStore.UserProblemEntry>, last: Option<Bytes>, k: nat)
    requires k < |entries|
    ensures BoundAfter(entries, last, k + 1) == BoundAfter(entries[1..], BoundAfter(entries, last, 1), k)
  {
    if k > 0 {
      BoundAfterRest(entries, last, k - 1);
      assert entries[k] == entries[1..][k - 1];
    }
  }

  /** One step of the user's listing as written. */
  lemma UserListingStep(entries: seq<EntityStore.UserProblemEntry>, last: Option<Bytes>)
    requires entries != []
    ensures var b0 := BoundAfter(entries, last, 1);
      var r := UserListingAsWritten(entries, last);
      var rest := UserListingAsWritten(entries[1..], b0);
      && (r.Some? <==> entries[0].company.Some? && b0.Some? && rest.Some?)
      && (r.Some? ==> r.value == [WrittenUserEntry(entries[0].description, b0.value, entries[0].company.value)] + rest.value)
  {
    assert BoundAfter(entries, last, 0) == last;
  }

  /** The `k`-th problem can be listed: it has a company, and a review is bound by then. */
  predicate Listable(entries: seq<EntityStore.UserProblemEntry>, last: Option<Bytes>, k: nat)
    requires k < |entries|
  {
    entries[k].company.Some? && BoundAfter(entries, last, k + 1).Some?
  }

  /**
   * For every input: the user's listing as written answers exactly when
   * every problem has a company and some review is bound when it is
   * listed, and then each entry's review is the one bound at that point.
   */
  lemma {:induction false} UserListingBound(entries: seq<EntityStore.UserProblemEntry>, last: Option<Bytes>)
    ensures var r := UserListingAsWritten(entries, last);
      && (r.Some? <==> forall k :: 0 <= k < |entries| ==> Listable(entries, last, k))
      && (r.Some? ==> forall k :: 0 <= k < |entries| ==>
            Listable(entries, last, k) && r.value[k].review == BoundAfter(entries, last, k + 1).value)
    decreases |entries|
  {
    if entries != [] {
      var e := entries[0];
      var b0 := BoundAfter(entries, last, 1);
      var rest := entries[1..];
      assert BoundAfter(entries, last, 0) == last;
      assert b0 == if |e.reviews| > 0 then Some(e.reviews[|e.reviews| - 1]) else last;
      UserListingStep(entries, last);
      UserListingBound(rest, b0);
      forall k | 1 <= k < |entries|
        ensures BoundAfter(entries, last, k + 1) == BoundAfter(rest, b0, k - 1 + 1)
        ensures Listable(entries, last, k) <==> Listable(rest, b0, k - 1)
      {
        BoundAfterRest(entries, last, k);
        assert entries[k] == rest[k - 1];
      }
      var r := UserListingAsWritten(entries, last);
      if r.Some? {
        var tail := UserListingAsWritten(rest, b0).value;
        forall k | 0 <= k < |entries|
          ensures Listable(entries, last, k)
          ensures r.value[k].review == BoundAfter(entries, last, k + 1).value
        {
          if k > 0 {
            assert Listable(rest, b0, k - 1);
            assert r.value[k] == tail[k - 1];
          }
        }
      } else if Listable(entries, last, 0) {
        assert UserListingAsWritten(rest, b0).None?;
        var j :| 0 <= j < |rest| && !Listable(rest, b0, j);
        assert !Listable(entries, last, j + 1);
      }
    }
  }

  /** The administrators' listing as written: any problem without a company makes it raise. */
  function AllListingAsWritten(entries: seq<EntityStore.ProblemEntry>): (r: Option<seq<WrittenEntry>>)
    ensures r.Some? ==> |r.value| == |entries|
    ensures r.Some? ==> forall k :: 0 <= k < |entries| ==>
      && entries[k].company.Some?
      && r.value[k] == WrittenEntry(entries[k].description, entries[k].reviews, entries[k].user, entries[k].company.value)
    decreases |entries|
  {
    if entries == [] then Some([])
    else
      var e := entries[0];
      if e.company.None? then None
      else
        match AllListingAsWritten(entries[1..])
        case None => None
        case Some(rest) => Some([WrittenEntry(e.description, e.reviews, e.user, e.company.value)] + rest)
  }

  /** The listing as written fails exactly when some problem has no company. */
  lemma {:induction false} AllListingFailsIffNoCompany(entries: seq<EntityStore.ProblemEntry>)
    ensures AllListingAsWritten(entries).None? <==> exists k :: 0 <= k < |entries| && entries[k].company.None?
    decreases |entries|
  {
    if entries != [] {
      AllListingFailsIffNoCompany(entries[1..]);
      assert forall k :: 1 <= k < |entries| ==> entries[k] == entries[1..][k - 1];
      if AllListingAsWritten(entries[1..]).None? {
        var k :| 0 <= k < |entries[1..]| && entries[1..][k].company.None?;
        assert entries[k + 1].company.None?;
      }
    }
  }

  /** The three tables that rejecting a company touches. */
  datatype Tables = Tables(
    companies: map<nat, EntityStore.Company>,
    problems: map<nat, EntityStore.Problem>,
    reviews: map<nat, EntityStore.Review>)

  /** The problems with every reference to company `id` cleared. */
  function ClearCompany(problems: map<nat, EntityStore.Problem>, id: nat): map<nat, EntityStore.Problem> {
    map p | p in problems ::
      if problems[p].companyId == Some(id) then problems[p].(companyId := None) else problems[p]
  }

  /** Some review belongs to a problem in `problems` that is not in `kept`. */
  predicate ReviewOfSwept(reviews: map<nat, EntityStore.Review>, problems: map<nat, EntityStore.Problem>,
                          kept: map<nat, EntityStore.Problem>) {
    exists r :: r in reviews && reviews[r].problemId in problems && reviews[r].problemId !in kept
  }

  /** A handler's answer and the tables it leaves behind. */
  datatype Outcome = Outcome(status: EntityStore.Status, tables: Tables)

  /**
   * Rejecting a company as written. The first commit deletes the company,
   * and the object mapper clears the company reference of each of its
   * problems. The sweep then deletes every problem without a company. If
   * one of those problems has a review, the mapper clears the review's
   * problem reference, which may not be null: the second commit fails,
   * the sweep is rolled back and the handler raises. The company stays
   * deleted either way.
   */
  function RejectAsWritten(t: Tables, id: nat): (r: Outcome)
    ensures r.status != EntityStore.CompanyNotFound <==> id in t.companies
    ensures id !in t.companies ==> r.tables == t
    ensures id in t.companies ==> r.tables.companies == t.companies - {id} && r.tables.reviews == t.reviews
  {
    if id !in t.companies then Outcome(EntityStore.CompanyNotFound, t)
    else
      var companies := t.companies - {id};
      var cleared := ClearCompany(t.problems, id);
      var kept := EntityStore.Survivors(cleared, companies);
      if ReviewOfSwept(t.reviews, cleared, kept) then Outcome(EntityStore.ServerError, Tables(companies, cleared, t.reviews))
      else Outcome(EntityStore.Rejected, Tables(companies, kept, t.reviews))
  }

  /** Every set company reference resolves, and every review's problem exists. */
  predicate Linked(t: Tables) {
    && (forall p :: p in t.problems && t.problems[p].companyId.Some? ==> t.problems[p].companyId.value in t.companies)
    && (forall r :: r in t.reviews ==> t.reviews[r].problemId in t.problems)
  }

  /** The problems that rejecting company `id` sweeps: those aimed at `id` or at no company. */
  predicate Swept(t: Tables, id: nat, p: nat)
    requires p in t.problems
  {
    !(t.problems[p].companyId.Some? && t.problems[p].companyId.value != id)
  }

  /**
   * As written, rejecting an existing company fails exactly when a
   * problem the sweep deletes has a review.
   */
  lemma RejectFailsIffSweptReview(t: Tables, id: nat)
    requires Linked(t) && id in t.companies
    ensures RejectAsWritten(t, id).status == EntityStore.ServerError <==>
      exists r :: r in t.reviews && Swept(t, id, t.reviews[r].problemId)
    ensures RejectAsWritten(t, id).status != EntityStore.ServerError ==> RejectAsWritten(t, id).status == EntityStore.Rejected
  {
    var companies := t.companies - {id};
    var cleared := ClearCompany(t.problems, id);
    var kept := EntityStore.Survivors(cleared, companies);
    forall p | p in t.problems
      ensures p in kept <==> !Swept(t, id, p)
    {
    }
    if ReviewOfSwept(t.reviews, cleared, kept) {
      var r :| r in t.reviews && t.reviews[r].problemId in cleared && t.reviews[r].problemId !in kept;
      assert Swept(t, id, t.reviews[r].problemId);
    }
    if exists r :: r in t.reviews && Swept(t, id, t.reviews[r].problemId) {
      var r :| r in t.reviews && Swept(t, id, t.reviews[r].problemId);
      assert t.reviews[r].problemId !in kept;
    }
  }

  /**
   * When no swept problem has a review, the handler as written ends where
   * EntityStore.Store.RejectCompany does.
   */
  lemma RejectAsWrittenAgrees(t: Tables, id: nat)
    requires Linked(t) && id in t.companies
    requires forall r :: r in t.reviews ==> !Swept(t, id, t.reviews[r].problemId)
    ensures var after := RejectAsWritten(t, id).tables;
      && RejectAsWritten(t, id).status == EntityStore.Rejected
      && after.companies == t.companies - {id}
      && after.problems == EntityStore.Survivors(t.problems, t.companies - {id})
      && after.reviews == EntityStore.ReviewsOfExisting(t.reviews, after.problems)
  {
    var companies := t.companies - {id};
    var cleared := ClearCompany(t.problems, id);
    var kept := EntityStore.Survivors(cleared, companies);
    var corrected := EntityStore.Survivors(t.problems, companies);
    RejectFailsIffSweptReview(t, id);
    forall p | p in t.problems
      ensures p in kept <==> p in corrected
      ensures p in kept ==> kept[p] == corrected[p]
    {
    }
    assert kept == corrected;
    forall r | r in t.reviews
      ensures t.reviews[r].problemId in corrected
    {
      assert !Swept(t, id, t.reviews[r].problemId);
    }
    assert EntityStore.ReviewsOfExisting(t.reviews, corrected) == t.reviews;
  }

  /**
   * One company, one problem aimed at it and one review of that problem:
   * rejecting the company deletes it, but the handler raises, and the
   * problem stays without a company, its review still attached.
   */
  lemma RejectFailsWithReviewedProblem()
    ensures var t := Tables(
        map[1 := EntityStore.Company([97], "", false)],
        map[1 := EntityStore.Problem([112], 1, Some(1))],
        map[1 := EntityStore.Review([114], 1)]);
      var r := RejectAsWritten(t, 1);
      && r.status == EntityStore.ServerError
      && r.tables.companies == map[]
      && r.tables.problems == map[1 := EntityStore.Problem([112], 1, None)]
      && r.tables.reviews == t.reviews
  {
    var t := Tables(
        map[1 := EntityStore.Company([97], "", false)],
        map[1 := EntityStore.Problem([112], 1, Some(1))],
        map[1 := EntityStore.Review([114], 1)]);
    RejectFailsIffSweptReview(t, 1);
    assert Swept(t, 1, t.reviews[1].problemId);
    assert ClearCompany(t.problems, 1) == map[1 := EntityStore.Problem([112], 1, None)];
    assert t.companies - {1} == map[];
  }
}
