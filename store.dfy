/**
 * The entity store behind the service: five tables (companies, users,
 * admins, reported problems and their reviews) and one operation per
 * request handler. Every operation is atomic: it either applies all of
 * its writes or, when the database would refuse its commit, none.
 */
module EntityStore {
  import opened Common
  import Base64
  import Ids

  // Rows of the five tables. Passwords of companies and users are stored
  // Base 64 encoded; an admin's password is stored as given.

  datatype Company = Company(name: Bytes, password: string, approved: bool)

  datatype User = User(name: Bytes, password: string)

  datatype Admin = Admin(name: Bytes, password: Bytes)

  /** A reported problem: always owned by a user, optionally aimed at a company. */
  datatype Problem = Problem(description: Bytes, userId: nat, companyId: Option<nat>)

  /** An administrator's review of one problem. */
  datatype Review = Review(description: Bytes, problemId: nat)

  /**
   * The `status` values the handlers answer with. `Duplicate` and
   * `ServerError` stand for a request the handler does not answer: the
   * commit breaks the unique constraint on a name, or the handler fails
   * on a missing field; either way nothing is written.
   */
  datatype Status =
    | Registered | Created | Duplicate | ServerError
    | Approved | Rejected | CompanyNotFound
    | Added | UserNotFound
    | Reviewed | ProblemNotFound

  /** The answer to a login: a session id, or a failure that does not say why. */
  datatype Login = LoggedIn(sessionId: string) | Failed

  /** One entry of the administrators' problem listing. */
  datatype ProblemEntry = ProblemEntry(description: Bytes, reviews: seq<Bytes>, user: Bytes, company: Option<Bytes>)

  /** One entry of a user's own problem listing. */
  datatype UserProblemEntry = UserProblemEntry(description: Bytes, reviews: seq<Bytes>, company: Option<Bytes>)

  /** Every id in use is below the table's next id. */
  predicate KeysBelow<T>(m: map<nat, T>, n: nat) {
    forall id :: id in m ==> id < n
  }

  // The unique name columns of the three actor tables.

  predicate UniqueCompanyNames(m: map<nat, Company>) {
    forall a, b :: a in m && b in m && m[a].name == m[b].name ==> a == b
  }

  predicate UniqueUserNames(m: map<nat, User>) {
    forall a, b :: a in m && b in m && m[a].name == m[b].name ==> a == b
  }

  predicate UniqueAdminNames(m: map<nat, Admin>) {
    forall a, b :: a in m && b in m && m[a].name == m[b].name ==> a == b
  }

  predicate CompanyNameTaken(m: map<nat, Company>, name: Bytes) {
    exists id :: id in m && m[id].name == name
  }

  predicate UserNameTaken(m: map<nat, User>, name: Bytes) {
    exists id :: id in m && m[id].name == name
  }

  predicate AdminNameTaken(m: map<nat, Admin>, name: Bytes) {
    exists id :: id in m && m[id].name == name
  }

  /** The problem's company reference points at an existing company. */
  predicate Resolves(p: Problem, companies: map<nat, Company>) {
    p.companyId.Some? && p.companyId.value in companies
  }

  /** The problems that the cascade sweep keeps: those whose company still exists. */
  function Survivors(problems: map<nat, Problem>, companies: map<nat, Company>): map<nat, Problem> {
    map p | p in problems && Resolves(problems[p], companies) :: problems[p]
  }

  /** The reviews whose problem still exists. */
  function ReviewsOfExisting(reviews: map<nat, Review>, problems: map<nat, Problem>): map<nat, Review> {
    map r | r in reviews && reviews[r].problemId in problems :: reviews[r]
  }

  /**
   * The loop of the consistency sweep: visits every problem id below `n`
   * in order and deletes the problem there if its company reference does
   * not resolve.
   */
  method Sweep(problems: map<nat, Problem>, companies: map<nat, Company>, n: nat) returns (kept: map<nat, Problem>)
    requires KeysBelow(problems, n)
    ensures kept == Survivors(problems, companies)
  {
    kept := problems;
    for p := 0 to n
      invariant forall q :: q in kept ==> q in problems && kept[q] == problems[q]
      invariant forall q :: q in problems ==> (q in kept <==> q >= p || Resolves(problems[q], companies))
    {
      if p in kept && !Resolves(kept[p], companies) {
        kept := kept - {p};
      }
    }
  }

  /** After the sweep, problems and reviews still satisfy the schema's foreign keys. */
  lemma SurvivorsKeepLinks(problems: map<nat, Problem>, companies: map<nat, Company>, reviews: map<nat, Review>,
                           users: map<nat, User>, n: nat)
    requires KeysBelow(problems, n)
    requires forall p :: p in problems ==> problems[p].userId in users
    ensures var kept := Survivors(problems, companies);
      && KeysBelow(kept, n)
      && (forall p :: p in kept ==> kept[p].userId in users && Resolves(kept[p], companies))
      && (forall r :: r in ReviewsOfExisting(reviews, kept) ==> ReviewsOfExisting(reviews, kept)[r].problemId in kept)
  {
  }

  /** Sweeping a second time deletes nothing more. */
  lemma SweepIdempotent(problems: map<nat, Problem>, companies: map<nat, Company>, reviews: map<nat, Review>)
    ensures var kept := Survivors(problems, companies);
      && Survivors(kept, companies) == kept
      && ReviewsOfExisting(ReviewsOfExisting(reviews, kept), kept) == ReviewsOfExisting(reviews, kept)
  {
  }

  /**
   * Rejecting company `id` keeps exactly the problems aimed at some other
   * company: those aimed at `id` go, and so do those aimed at no company.
   */
  lemma SweepSparesOtherCompanies(problems: map<nat, Problem>, companies: map<nat, Company>, id: nat)
    requires forall p :: p in problems && problems[p].companyId.Some? ==> problems[p].companyId.value in companies
    ensures forall p :: p in problems ==>
      (p in Survivors(problems, companies - {id}) <==> problems[p].companyId.Some? && problems[p].companyId.value != id)
  {
  }

  /** A company of that name exists whose stored credential is the encoding of `password`. */
  predicate CompanyAccepts(companies: map<nat, Company>, name: Bytes, password: Bytes) {
    exists id :: id in companies && companies[id].name == name && Base64.Decode(companies[id].password) == Some(password)
  }

  /** A user of that name exists whose stored credential is the encoding of `password`. */
  predicate UserAccepts(users: map<nat, User>, name: Bytes, password: Bytes) {
    exists id :: id in users && users[id].name == name && Base64.Decode(users[id].password) == Some(password)
  }

  /**
   * A company registered with `secret` is accepted with `password` exactly
   * when the two are equal: names are unique and the encoding is injective.
   */
  lemma CompanyLoginMatchesSecret(companies: map<nat, Company>, id: nat, secret: Bytes, password: Bytes)
    requires UniqueCompanyNames(companies)
    requires id in companies && companies[id].password == Base64.Encode(secret)
    ensures CompanyAccepts(companies, companies[id].name, password) <==> password == secret
  {
    Base64.DecodeEncode(secret);
  }

  /** The same for a user registered with `secret`. */
  lemma UserLoginMatchesSecret(users: map<nat, User>, id: nat, secret: Bytes, password: Bytes)
    requires UniqueUserNames(users)
    requires id in users && users[id].password == Base64.Encode(secret)
    ensures UserAccepts(users, users[id].name, password) <==> password == secret
  {
    Base64.DecodeEncode(secret);
  }

  /** The ids of the reviews of problem `pid`. */
  function ReviewIdsOf(reviews: map<nat, Review>, pid: nat): set<nat> {
    set r | r in reviews && reviews[r].problemId == pid
  }

  /** The descriptions of the reviews of problem `pid`, by review id. */
  function ReviewView(reviews: map<nat, Review>, pid: nat): map<nat, Bytes> {
    map r | r in ReviewIdsOf(reviews, pid) :: reviews[r].description
  }

  /** The descriptions of the reviews of problem `pid` with ids below `n`, gathered in id order. */
  function ReviewTexts(reviews: map<nat, Review>, pid: nat, n: nat): seq<Bytes> {
    Ids.InIdOrder(ReviewView(reviews, pid), n)
  }

  /** ReviewTexts holds one description per review of `pid`, in store order. */
  lemma ReviewTextsInOrder(reviews: map<nat, Review>, pid: nat, n: nat)
    ensures var ids := Ids.Ascending(ReviewIdsOf(reviews, pid), n);
      && |ReviewTexts(reviews, pid, n)| == |ids|
      && forall k :: 0 <= k < |ids| ==> ReviewTexts(reviews, pid, n)[k] == reviews[ids[k]].description
  {
    Ids.InIdOrderAscending(ReviewView(reviews, pid), n);
    assert ReviewView(reviews, pid).Keys == ReviewIdsOf(reviews, pid);
  }

  class Store {
    var companies: map<nat, Company>
    var users: map<nat, User>
    var admins: map<nat, Admin>
    var problems: map<nat, Problem>
    var reviews: map<nat, Review>
    // The id the database hands to the next row of each table.
    var nextCompanyId: nat
    var nextUserId: nat
    var nextAdminId: nat
    var nextProblemId: nat
    var nextReviewId: nat

    /** Every constraint of the schema except that company references resolve. */
    ghost predicate Consistent()
      reads this
    {
      && KeysBelow(companies, nextCompanyId)
      && KeysBelow(users, nextUserId)
      && KeysBelow(admins, nextAdminId)
      && KeysBelow(problems, nextProblemId)
      && KeysBelow(reviews, nextReviewId)
      && UniqueCompanyNames(companies)
      && UniqueUserNames(users)
      && UniqueAdminNames(admins)
      && (forall p :: p in problems ==> problems[p].userId in users)
      && (forall r :: r in reviews ==> reviews[r].problemId in problems)
    }

    /** The schema's constraints: unique names and foreign keys that resolve. */
    ghost predicate Valid()
      reads this
    {
      && Consistent()
      && (forall p :: p in problems && problems[p].companyId.Some? ==> problems[p].companyId.value in companies)
    }

    /** The empty store, as the schema is created. */
    constructor ()
      ensures Valid()
      ensures companies == map[] && users == map[] && admins == map[] && problems == map[] && reviews == map[]
    {
      companies, users, admins, problems, reviews := map[], map[], map[], map[], map[];
      nextCompanyId, nextUserId, nextAdminId, nextProblemId, nextReviewId := 1, 1, 1, 1, 1;
    }

    /** The company with exactly that name, if any. */
    function CompanyNamed(name: Bytes): (r: Option<nat>)
      reads this
      requires Valid()
      ensures r.Some? ==> r.value in companies && companies[r.value].name == name
      ensures r.None? <==> !CompanyNameTaken(companies, name)
    {
      if exists id :: id in companies && companies[id].name == name then
        var id :| id in companies && companies[id].name == name;
        Some(id)
      else
        None
    }

    /** The user with exactly that name, if any. */
    function UserNamed(name: Bytes): (r: Option<nat>)
      reads this
      requires Valid()
      ensures r.Some? ==> r.value in users && users[r.value].name == name
      ensures r.None? <==> !UserNameTaken(users, name)
    {
      if exists id :: id in users && users[id].name == name then
        var id :| id in users && users[id].name == name;
        Some(id)
      else
        None
    }

    /**
     * The company a new problem refers to: set exactly when a company
     * name is given and some company has exactly that name.
     */
    function CompanyRef(companyName: Option<Bytes>): (r: Option<nat>)
      reads this
      requires Valid()
      ensures r.Some? <==> companyName.Some? && CompanyNameTaken(companies, companyName.value)
      ensures r.Some? ==> r.value in companies && companies[r.value].name == companyName.value
    {
      if companyName.Some? then CompanyNamed(companyName.value) else None
    }

    /**
     * Registers a company, not yet approved, with its password stored
     * encoded. A missing password cannot be encoded and a missing name
     * breaks the NOT NULL column; a name already in use fails the unique
     * constraint at commit. In those cases nothing is written.
     */
    method RegisterCompany(name: Option<Bytes>, secret: Option<Bytes>) returns (status: Status)
      requires Valid()
      modifies this`companies, this`nextCompanyId
      ensures Valid()
      ensures name.None? || secret.None? ==>
        status == ServerError && companies == old(companies) && nextCompanyId == old(nextCompanyId)
      ensures name.Some? && secret.Some? && CompanyNameTaken(old(companies), name.value) ==>
        status == Duplicate && companies == old(companies) && nextCompanyId == old(nextCompanyId)
      ensures name.Some? && secret.Some? && !CompanyNameTaken(old(companies), name.value) ==>
        && status == Registered
        && companies == old(companies)[old(nextCompanyId) := Company(name.value, Base64.Encode(secret.value), false)]
        && nextCompanyId == old(nextCompanyId) + 1
    {
      if secret.None? || name.None? {
        status := ServerError;
        return;
      }
      var password := Base64.Encode(secret.value);
      if CompanyNamed(name.value).Some? {
        status := Duplicate;
        return;
      }
      companies := companies[nextCompanyId := Company(name.value, password, false)];
      nextCompanyId := nextCompanyId + 1;
      status := Registered;
    }

    /**
     * Registers a user with the password stored encoded. The password is
     * encoded before anything is checked, so a missing password fails the
     * handler; a missing name is answered with the handler's
     * "company not found"; a name already in use fails at commit.
     */
    method RegisterUser(name: Option<Bytes>, secret: Option<Bytes>) returns (status: Status)
      requires Valid()
      modifies this`users, this`nextUserId
      ensures Valid()
      ensures secret.None? ==>
        status == ServerError && users == old(users) && nextUserId == old(nextUserId)
      ensures secret.Some? && name.None? ==>
        status == CompanyNotFound && users == old(users) && nextUserId == old(nextUserId)
      ensures name.Some? && secret.Some? && UserNameTaken(old(users), name.value) ==>
        status == Duplicate && users == old(users) && nextUserId == old(nextUserId)
      ensures name.Some? && secret.Some? && !UserNameTaken(old(users), name.value) ==>
        && status == Registered
        && users == old(users)[old(nextUserId) := User(name.value, Base64.Encode(secret.value))]
        && nextUserId == old(nextUserId) + 1
    {
      if secret.None? {
        status := ServerError;
        return;
      }
      var password := Base64.Encode(secret.value);
      if name.None? {
        status := CompanyNotFound;
        return;
      }
      if UserNamed(name.value).Some? {
        status := Duplicate;
        return;
      }
      users := users[nextUserId := User(name.value, password)];
      nextUserId := nextUserId + 1;
      status := Registered;
    }

    /**
     * Creates an admin with the password stored as given. A missing name or
     * password breaks a NOT NULL column, and a name already in use fails
     * the unique constraint, at commit.
     */
    method CreateAdmin(name: Option<Bytes>, password: Option<Bytes>) returns (status: Status)
      requires Valid()
      modifies this`admins, this`nextAdminId
      ensures Valid()
      ensures name.None? || password.None? ==>
        status == ServerError && admins == old(admins) && nextAdminId == old(nextAdminId)
      ensures name.Some? && password.Some? && AdminNameTaken(old(admins), name.value) ==>
        status == Duplicate && admins == old(admins) && nextAdminId == old(nextAdminId)
      ensures name.Some? && password.Some? && !AdminNameTaken(old(admins), name.value) ==>
        && status == Created
        && admins == old(admins)[old(nextAdminId) := Admin(name.value, password.value)]
        && nextAdminId == old(nextAdminId) + 1
    {
      if name.None? || password.None? {
        status := ServerError;
        return;
      }
      if exists id :: id in admins && admins[id].name == name.value {
        status := Duplicate;
        return;
      }
      admins := admins[nextAdminId := Admin(name.value, password.value)];
      nextAdminId := nextAdminId + 1;
      status := Created;
    }

    /** The names of all admins, in store order. */
    method ListAdmins() returns (names: seq<Bytes>)
      requires Valid()
      ensures var ids := Ids.Ascending(admins.Keys, nextAdminId);
        |names| == |ids| && forall k :: 0 <= k < |ids| ==> names[k] == admins[ids[k]].name
    {
      ghost var view := map id | id in admins :: admins[id].name;
      names := [];
      for i := 0 to nextAdminId
        invariant names == Ids.InIdOrder(view, i)
      {
        if i in admins {
          names := names + [admins[i].name];
        }
      }
      Ids.InIdOrderAscending(view, nextAdminId);
      assert view.Keys == admins.Keys;
    }

    /** The ids of the companies still awaiting approval. */
    ghost function UnapprovedIds(): set<nat>
      reads this
    {
      set id | id in companies && !companies[id].approved
    }

    /** The names of the companies not yet approved, in store order. */
    method AwaitingCompanies() returns (names: seq<Bytes>)
      requires Valid()
      ensures var ids := Ids.Ascending(UnapprovedIds(), nextCompanyId);
        |names| == |ids| && forall k :: 0 <= k < |ids| ==> names[k] == companies[ids[k]].name
    {
      ghost var view := map id | id in UnapprovedIds() :: companies[id].name;
      names := [];
      for i := 0 to nextCompanyId
        invariant names == Ids.InIdOrder(view, i)
      {
        if i in companies && !companies[i].approved {
          names := names + [companies[i].name];
        }
      }
      Ids.InIdOrderAscending(view, nextCompanyId);
      assert view.Keys == UnapprovedIds();
    }

    /**
     * Marks a company approved. Approving an approved company changes
     * nothing; an unknown id changes nothing and says so.
     */
    method ApproveCompany(id: nat) returns (status: Status)
      requires Valid()
      modifies this`companies
      ensures Valid()
      ensures id !in old(companies) ==> status == CompanyNotFound && companies == old(companies)
      ensures id in old(companies) ==>
        && status == Approved
        && companies == old(companies)[id := old(companies)[id].(approved := true)]
      ensures id in old(companies) && old(companies)[id].approved ==> companies == old(companies)
      ensures forall c :: c in old(companies) && old(companies)[c].approved ==> c in companies && companies[c].approved
    {
      if id in companies {
        companies := companies[id := companies[id].(approved := true)];
        status := Approved;
      } else {
        status := CompanyNotFound;
      }
    }

    /**
     * The consistency sweep run after a company is deleted: every problem,
     * in store order, whose company reference does not resolve is deleted,
     * and with it its reviews. (When a company is deleted the object
     * mapper clears its problems' references, so a cleared reference and
     * a dangling one are the same case here.)
     */
    method CheckProblems()
      requires Consistent()
      modifies this`problems, this`reviews
      ensures Valid()
      ensures problems == Survivors(old(problems), companies)
      ensures reviews == ReviewsOfExisting(old(reviews), problems)
    {
      var kept := Sweep(problems, companies, nextProblemId);
      SurvivorsKeepLinks(problems, companies, reviews, users, nextProblemId);
      problems := kept;
      reviews := ReviewsOfExisting(reviews, problems);
    }

    /**
     * Deletes a company, then sweeps away every problem whose company no
     * longer exists, together with those problems' reviews. Problems of
     * the other companies and every other table stay as they were.
     */
    method RejectCompany(id: nat) returns (status: Status)
      requires Valid()
      modifies this`companies, this`problems, this`reviews
      ensures Valid()
      ensures id !in old(companies) ==>
        status == CompanyNotFound && companies == old(companies) && problems == old(problems) && reviews == old(reviews)
      ensures id in old(companies) ==>
        && status == Rejected
        && companies == old(companies) - {id}
        && problems == Survivors(old(problems), companies)
        && reviews == ReviewsOfExisting(old(reviews), problems)
      ensures id in old(companies) ==> forall p :: p in old(problems) ==>
        (p in problems <==> old(problems)[p].companyId.Some? && old(problems)[p].companyId.value != id)
      ensures forall p :: p in problems ==> p in old(problems) && problems[p] == old(problems)[p]
    {
      if id !in companies {
        status := CompanyNotFound;
        return;
      }
      SweepSparesOtherCompanies(problems, companies, id);
      companies := companies - {id};
      CheckProblems();
      status := Rejected;
    }

    /**
     * Logs a company in: succeeds exactly when a company of that name holds
     * `password`, and then hands out the encoding of the name. An unknown
     * name and a wrong password give the same answer.
     */
    method LoginCompany(name: Bytes, password: Bytes) returns (r: Login)
      requires Valid()
      ensures r.LoggedIn? <==> CompanyAccepts(companies, name, password)
      ensures r.LoggedIn? ==> r.sessionId == Base64.Encode(name)
    {
      var encoded := Base64.Encode(password);
      forall id | id in companies
        ensures companies[id].password == encoded <==> Base64.Decode(companies[id].password) == Some(password)
      {
        Base64.DecodeIff(companies[id].password, password);
      }
      if exists id :: id in companies && companies[id].name == name && companies[id].password == encoded {
        r := LoggedIn(Base64.Encode(name));
      } else {
        r := Failed;
      }
    }

    /** Logs a user in, on the same terms as a company. */
    method LoginUser(name: Bytes, password: Bytes) returns (r: Login)
      requires Valid()
      ensures r.LoggedIn? <==> UserAccepts(users, name, password)
      ensures r.LoggedIn? ==> r.sessionId == Base64.Encode(name)
    {
      var encoded := Base64.Encode(password);
      forall id | id in users
        ensures users[id].password == encoded <==> Base64.Decode(users[id].password) == Some(password)
      {
        Base64.DecodeIff(users[id].password, password);
      }
      if exists id :: id in users && users[id].name == name && users[id].password == encoded {
        r := LoggedIn(Base64.Encode(name));
      } else {
        r := Failed;
      }
    }

    /**
     * Files a problem for the user of that name, aimed at the company of
     * that name if there is one and at no company otherwise. An unknown
     * user changes nothing.
     */
    method AddProblem(userName: Bytes, description: Bytes, companyName: Option<Bytes>) returns (status: Status)
      requires Valid()
      modifies this`problems, this`nextProblemId
      ensures Valid()
      ensures UserNamed(userName).None? ==>
        status == UserNotFound && problems == old(problems) && nextProblemId == old(nextProblemId)
      ensures UserNamed(userName).Some? ==>
        && status == Added
        && problems == old(problems)[old(nextProblemId) := Problem(description, UserNamed(userName).value, CompanyRef(companyName))]
        && nextProblemId == old(nextProblemId) + 1
    {
      var user := UserNamed(userName);
      var company := CompanyRef(companyName);
      if user.None? {
        status := UserNotFound;
        return;
      }
      problems := problems[nextProblemId := Problem(description, user.value, company)];
      nextProblemId := nextProblemId + 1;
      status := Added;
    }

    /** Attaches a review to an existing problem; an unknown problem changes nothing. */
    method ReviewProblem(id: nat, description: Bytes) returns (status: Status)
      requires Valid()
      modifies this`reviews, this`nextReviewId
      ensures Valid()
      ensures id !in problems ==>
        status == ProblemNotFound && reviews == old(reviews) && nextReviewId == old(nextReviewId)
      ensures id in problems ==>
        && status == Reviewed
        && reviews == old(reviews)[old(nextReviewId) := Review(description, id)]
        && nextReviewId == old(nextReviewId) + 1
    {
      if id !in problems {
        status := ProblemNotFound;
        return;
      }
      reviews := reviews[nextReviewId := Review(description, id)];
      nextReviewId := nextReviewId + 1;
      status := Reviewed;
    }

    /** The descriptions of all reviews of problem `pid`, in store order. */
    method CollectReviews(pid: nat) returns (texts: seq<Bytes>)
      requires Valid()
      ensures texts == ReviewTexts(reviews, pid, nextReviewId)
    {
      ghost var view := ReviewView(reviews, pid);
      texts := [];
      for i := 0 to nextReviewId
        invariant texts == Ids.InIdOrder(view, i)
      {
        if i in reviews && reviews[i].problemId == pid {
          texts := texts + [reviews[i].description];
        }
      }
    }

    /**
     * The name of the company a problem is aimed at, if any. Names are
     * unique, so the name shown leads back to exactly that company.
     */
    function CompanyNameOf(pid: nat): (r: Option<Bytes>)
      reads this
      requires Valid() && pid in problems
      ensures r.Some? <==> problems[pid].companyId.Some?
      ensures r.Some? ==> CompanyNamed(r.value) == problems[pid].companyId
    {
      var company := problems[pid].companyId;
      if company.Some? then Some(companies[company.value].name) else None
    }

    /** What the administrators' listing shows of problem `pid`. */
    ghost function EntryOf(pid: nat): ProblemEntry
      reads this
      requires Valid() && pid in problems
    {
      var problem := problems[pid];
      ProblemEntry(problem.description, ReviewTexts(reviews, pid, nextReviewId), users[problem.userId].name, CompanyNameOf(pid))
    }

    /**
     * Every problem, in store order, with all of its reviews, its owner's
     * name and its company's name.
     */
    method ListAllProblems() returns (entries: seq<ProblemEntry>)
      requires Valid()
      ensures var ids := Ids.Ascending(problems.Keys, nextProblemId);
        |entries| == |ids| && forall k :: 0 <= k < |ids| ==> entries[k] == EntryOf(ids[k])
    {
      ghost var view := map pid | pid in problems :: EntryOf(pid);
      entries := [];
      for p := 0 to nextProblemId
        invariant entries == Ids.InIdOrder(view, p)
      {
        if p in problems {
          var texts := CollectReviews(p);
          var owner := users[problems[p].userId];
          var entry := ProblemEntry(problems[p].description, texts, owner.name, CompanyNameOf(p));
          assert entry == view[p];
          entries := entries + [entry];
        }
      }
      Ids.InIdOrderAscending(view, nextProblemId);
      assert view.Keys == problems.Keys;
    }

    /** The ids of the problems owned by user `userId`. */
    ghost function ProblemIdsOf(userId: nat): set<nat>
      reads this
    {
      set p | p in problems && problems[p].userId == userId
    }

    /** What a user's own listing shows of problem `pid`. */
    ghost function UserEntryOf(pid: nat): UserProblemEntry
      reads this
      requires Valid() && pid in problems
    {
      UserProblemEntry(problems[pid].description, ReviewTexts(reviews, pid, nextReviewId), CompanyNameOf(pid))
    }

    /**
     * The problems owned by user `userId`, in store order, each with all
     * of its reviews and its company's name; empty for an unknown user.
     */
    method ListUserProblems(userId: nat) returns (entries: seq<UserProblemEntry>)
      requires Valid()
      ensures var ids := Ids.Ascending(ProblemIdsOf(userId), nextProblemId);
        |entries| == |ids| && forall k :: 0 <= k < |ids| ==> entries[k] == UserEntryOf(ids[k])
      ensures userId !in users ==> entries == []
    {
      ghost var view := map pid | pid in ProblemIdsOf(userId) :: UserEntryOf(pid);
      entries := [];
      for p := 0 to nextProblemId
        invariant entries == Ids.InIdOrder(view, p)
      {
        if p in problems && problems[p].userId == userId {
          var texts := CollectReviews(p);
          var entry := UserProblemEntry(problems[p].description, texts, CompanyNameOf(p));
          assert entry == view[p];
          entries := entries + [entry];
        }
      }
      Ids.InIdOrderAscending(view, nextProblemId);
      assert view.Keys == ProblemIdsOf(userId);
      ghost var ids := Ids.Ascending(ProblemIdsOf(userId), nextProblemId);
      assert |ids| == 0 || ids[0] in ProblemIdsOf(userId);
    }
  }
}
