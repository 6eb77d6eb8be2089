# Problem-reporting service: a Dafny model

The service lets companies register and wait for an administrator's
approval. Users register and file problems, each optionally aimed at a
company, and administrators review problems. Rejecting a company deletes
it. A consistency sweep then deletes every problem that no longer points
at an existing company. Company and user passwords are stored Base 64
encoded, and logging in compares the encoding of the offered password with
the stored one. A successful login answers with the Base 64 encoding of
the name as a session id.

The model has these modules:

- `Common` (common.dfy): bytes, byte strings, `Option`.
- `Base64` (base64.dfy): the encoding of section 4 of RFC 4648 over byte
  strings, and a strict decoder. It proves:
  - decoding undoes encoding, and the reverse;
  - the encoding is injective;
  - the encoding has length 4·⌈n/3⌉;
  - the encoding is alphabet characters followed by exactly the right
    number of `=`.
- `Ids` (ids.dfy): store order. Rows get increasing ids. The listings'
  queries leave their order open, and the model fixes it as increasing
  id (see "## Left out"). `Ascending` is the reference definition of that
  order, and `InIdOrder` lists a table's rows in it.
- `EntityStore` (store.dfy): the five tables as a `Store` class with one
  map field per table and one next-id counter per table. There is one
  method per request handler, each against the schema's invariant
  `Valid()`:
  - unique company, user and admin names;
  - every problem's user exists;
  - every review's problem exists;
  - every set company reference resolves.
- `AsWritten` (as_written.dfy): the two problem listings and the
  rejection of a company as their handlers are written (see
  "## Findings").

Each handler's request fields are parameters. Each response is a
`Status`, a `Login` or a sequence of entries. A handler that raises
answers `ServerError`, and one whose commit breaks a unique constraint
answers `Duplicate`. In both cases the failing commit writes nothing. Only
the rejection as written has already committed a write when it fails.

## Model

| member | source | states |
|---|---|---|
| Base64.Encode | app.py:64-66 | the encoding of n bytes has 4·⌈n/3⌉ characters |
| Base64.EncodeAlphabet | app.py:64-66 | the encoding is alphabet characters followed by exactly (3 − n mod 3) mod 3 pad characters |
| Base64.Decode | app.py:69-71 | strict decoding: it answers only for strings whose length is a multiple of 4, with at most 3 bytes per 4 characters; by Base64.DecodeIff it answers exactly for the encodings and gives None for every other string |
| Base64.DecodeEncode | app.py:64-71 | decoding the encoding of any byte string gives that byte string back |
| Base64.EncodeDecode | app.py:64-71 | a string that decodes to some bytes is exactly the encoding of those bytes |
| Base64.DecodeIff | app.py:64-71 | a string decodes to `data` if and only if it is the encoding of `data` |
| Base64.EncodeInjective | app.py:64-66 | two byte strings with the same encoding are equal, so comparing encoded passwords compares passwords |
| Ids.Ascending | app.py:81 | store order as the model fixes it: each matching id below the next id exactly once, in increasing order |
| Ids.InIdOrderAscending | app.py:120-121 | listing a table's rows in id order yields one value per ascending id, entry k being the row with the k-th id |
| EntityStore.Sweep | app.py:56-61 | visiting the problems in order and deleting those whose company is gone leaves exactly the problems whose company reference resolves |
| EntityStore.SurvivorsKeepLinks | app.py:56-61 | after the sweep, ids stay below the next id, every kept problem's user exists and its company resolves, and every remaining review's problem exists |
| EntityStore.SweepIdempotent | app.py:56-61 | a second sweep deletes no problem and no review |
| EntityStore.SweepSparesOtherCompanies | app.py:96-105 | rejecting company `id` keeps a problem if and only if it is aimed at a company other than `id` |
| EntityStore.CompanyLoginMatchesSecret | app.py:153-157 | a company registered with a password is let in under its name with a password exactly when the two are equal |
| EntityStore.UserLoginMatchesSecret | app.py:166-169 | a user registered with a password is let in under its name with a password exactly when the two are equal |
| EntityStore.ReviewTextsInOrder | app.py:214-216 | the review texts gathered for a problem are one per review of that problem, in id order |
| EntityStore.Store.constructor | app.py:236-237 | the schema starts with five empty tables and satisfies its invariant |
| EntityStore.Store.UserNamed | app.py:179 | the user lookup by name finds a user of exactly that name, and finds none exactly when no user has it |
| EntityStore.Store.CompanyNamed | app.py:180 | the company lookup by name finds a company of exactly that name, and finds none exactly when no company has it |
| EntityStore.Store.CompanyRef | app.py:178-180 | a new problem's company is set exactly when a company name is given and a company has it, and then it is that company |
| EntityStore.Store.RegisterCompany | app.py:124-132 | a missing field fails and a taken name fails at commit, both with no change; otherwise the company is added unapproved under the next id with its password encoded; the invariant is kept |
| EntityStore.Store.RegisterUser | app.py:135-146 | a missing password fails before the name is checked; a missing name answers "company not found"; a taken name fails at commit; in these cases nothing changes; otherwise the user is added with its password encoded; the invariant is kept |
| EntityStore.Store.CreateAdmin | app.py:108-115 | a missing field or a taken name fails at commit with no change; otherwise the admin is added with its password as given; the invariant is kept |
| EntityStore.Store.ListAdmins | app.py:118-121 | the names of all admins, one per admin, in id order |
| EntityStore.Store.AwaitingCompanies | app.py:79-82 | the names of exactly the unapproved companies, in id order |
| EntityStore.Store.ApproveCompany | app.py:85-93 | an unknown id answers "company not found" with no change; otherwise only that company's approved flag becomes true; approving twice changes nothing more; no approval is ever withdrawn |
| EntityStore.Store.CheckProblems | app.py:56-61 | the problems become the survivors of the sweep, the reviews those of surviving problems, and the full invariant holds again |
| EntityStore.Store.RejectCompany | app.py:96-105 | an unknown id changes nothing; otherwise the company is deleted and exactly the problems aimed at another company survive, unchanged, with their reviews; the invariant is kept |
| EntityStore.Store.LoginCompany | app.py:149-159 | succeeds if and only if a company of that name stores the encoding of the password, and then the session id is the encoding of the name |
| EntityStore.Store.LoginUser | app.py:162-171 | succeeds if and only if a user of that name stores the encoding of the password, and then the session id is the encoding of the name |
| EntityStore.Store.AddProblem | app.py:174-188 | an unknown user answers "user not found" with no change; otherwise the problem is added under the next id, owned by that user and aimed at the named company if it exists and at none otherwise; the invariant is kept |
| EntityStore.Store.ReviewProblem | app.py:222-232 | an unknown problem answers "problem not found" with no change; otherwise the review is added under the next id for that problem; the invariant is kept |
| EntityStore.Store.CollectReviews | app.py:214-216 | the inner loop gathers the texts of the problem's reviews in id order |
| EntityStore.Store.CompanyNameOf | app.py:218 | a problem's company name is present exactly when the problem is aimed at a company, and because names are unique, looking that name up leads back to exactly the company the problem refers to |
| EntityStore.Store.ListAllProblems | app.py:209-219 | one entry per problem in id order, each with its description, all review texts, its owner's name and its company's name if any |
| EntityStore.Store.ListUserProblems | app.py:191-206 | one entry per problem of that user in id order, each with its description, all review texts and its company's name if any; no entries for an unknown user |
| AsWritten.UserListingAsWritten | app.py:197-202 | the user's listing as written answers only if every problem has a company, and then has one entry per problem with its description and company |
| AsWritten.UserListingBound | app.py:197-202 | for every input, the user's listing as written answers exactly when each problem has a company and some review is bound by the time it is listed; each entry's review is then the last review text of that problem or of the latest earlier problem that has one |
| AsWritten.UserListingDropsReviews | app.py:199-202 | as written, a problem with two reviews is listed with only the text of the second |
| AsWritten.UserListingFailsBeforeAnyReview | app.py:199-202 | as written, a listing whose first problem has no review raises instead of answering |
| AsWritten.AllListingAsWritten | app.py:209-219 | the administrators' listing as written: when it answers, one entry per problem with its description, all review texts, its owner's name and its company's name dereferenced |
| AsWritten.AllListingFailsIffNoCompany | app.py:213-218 | as written, the administrators' listing raises exactly when some problem has no company |
| AsWritten.RejectAsWritten | app.py:96-105 | as written, rejecting an unknown id changes nothing, and rejecting an existing company deletes it even when the handler then raises; reviews are never deleted |
| AsWritten.RejectFailsIffSweptReview | app.py:56-61 | as written, rejecting an existing company raises exactly when some problem the sweep deletes (aimed at that company or at none) has a review, and otherwise answers "rejected" |
| AsWritten.RejectAsWrittenAgrees | app.py:96-105 | when no problem the sweep deletes has a review, the handler as written ends where EntityStore.Store.RejectCompany does |
| AsWritten.RejectFailsWithReviewedProblem | app.py:96-105 | one company, one problem aimed at it and one review of it: as written, the company is deleted, the handler raises, and the problem stays with no company and its review attached |

## Findings

| source | as written | input that shows it | evidently intended | confidence | as-written member | corrected member |
|---|---|---|---|---|---|---|
| app.py:202 | the entry's `reviews` is the text of the review last bound by the inner loop, not the list just gathered; it raises when no review has been bound yet | a user whose only problem has reviews "a" then "b" is shown "b"; a user whose only problem has no review gets an error | `reviews` holds the list of all review texts of the problem | high, not executed | AsWritten.UserListingBound | EntityStore.Store.ListUserProblems |
| app.py:50-51, app.py:56-61 | the sweep deletes problems without clearing their reviews; the object mapper then clears each such review's problem reference, which may not be null, so the sweep's commit fails; the company stays deleted, and the problems stay with no company | one company, one problem aimed at it, one review of that problem, then reject the company | rejecting deletes the company, the problems left without one, and their reviews, and answers "rejected" | high, not executed | AsWritten.RejectFailsWithReviewedProblem | EntityStore.Store.RejectCompany |
| app.py:202, app.py:218 | the company's name is read from `problem.company` even when the problem has none, which raises | a problem filed with a company name that no company has, then either listing | the company is shown as absent | medium, not executed | AsWritten.AllListingFailsIffNoCompany | EntityStore.Store.ListAllProblems |

A problem without a company arises in `EntityStore.Store.AddProblem`: an
unknown company name gives a problem with no company, and no sweep runs
until the next rejection. The model's listings report such a company as
`None`.

## Left out

- The web layer (routing, JSON parsing and rendering), the `.env` file, and the host and port settings are not modelled. The handlers become methods with their fields as parameters.
- The status route (app.py:74-76) answers a constant and is not modelled.
- Commits are not modelled one by one. Each handler is one atomic step. Rejecting a company commits the delete before the sweep runs, and the source's sweep fails whenever a deleted problem has a review (see "## Findings"). In that case the source ends in a different state from the model's step. AsWritten.RejectAsWritten models that behaviour.
- Concurrency between requests is not modelled.
- Text is byte strings. The UTF-8 conversions around the Base 64 calls are not modelled. Neither are column lengths.
- Base64.Decode: strict. It accepts exactly the encodings and nothing else. The library decoder that decode_string calls is more lenient about non-alphabet characters, data after padding and non-zero pad bits. No handler calls decode_string. The model uses decoding only to state what a stored password means.
- EntityStore.Store.CheckProblems: models the evidently intended sweep. When a company is deleted, the object mapper clears its problems' company references, so a cleared reference and a dangling one are the same case. The model also deletes the reviews of each deleted problem. The source as written does not: the mapper clears those reviews' problem references, which may not be null, and the sweep's commit fails (see "## Findings").
- EntityStore.Store.ListUserProblems: models the evidently intended listing (see "## Findings"). The handler's "user not found" answer is unreachable, because the query's result is never null. An unknown user therefore gets an empty list.
- EntityStore.Store.AddProblem: treats the problem text and the user name as present. A missing text breaks the NOT NULL column at commit. A missing user name finds no user.
- EntityStore.Store.LoginCompany: treats both fields as present. A missing password raises in the encoder. The same holds for EntityStore.Store.LoginUser.
- EntityStore.Store.ReviewProblem: treats the review text as present. A missing text breaks the NOT NULL column at commit.
- EntityStore.Store.CreateAdmin: the admin name column is declared unique, so a taken name fails at commit as it does for companies and users.
- The debug print of the user's listing is not modelled.
- Ids are unbounded integers, with no overflow.
- Ids.Ascending: every listing is in increasing id order. The source promises no order. The queries at app.py:81, 120, 194 and 211, and the review loads at app.py:199 and 215, have no ORDER BY. Increasing id is the model's choice of store order.
- Database errors other than constraint violations are not modelled.
