# Redmine actionables filter, modelled in Dafny

The service answers `GET /v0/redmine/actionables?url=…&apikey=…` with the
issues the current Redmine user can act on now. The handler first checks
its query arguments. It then fetches every open issue, together with its
relations, and filters that list in memory:

1. It files every open issue under its id in `issue_all`. It files the
   issues assigned to the user in `issue_user`, the candidates.
2. For each relation of each open issue, it overwrites the excluded id in
   `issue_user` with `None`:
   - `blocks` and `precedes` exclude `issue_to_id` when `issue_id` is open;
   - `blocked_by` and `follows` exclude `issue_id` when `issue_to_id` is open.
3. It overwrites the parent of every open issue with `None`.
4. It overwrites every candidate whose start date lies after today with `None`.
5. It renders every remaining candidate as a response entry, in dictionary order.

The model follows those steps one by one (module `Filter`). It also gives a
reference definition of the result that uses no dictionaries (modules
`Selection` and `SelectionList`). The central theorem,
`FilterProof.ActionablesCharacterised`, says the handler's list is exactly the
one the reference definition determines. The properties in `Properties`
follow from that theorem.

Modules:

- `Wrappers`: `Option` and `Result`.
- `Dicts`: Python's insertion-ordered `dict` with integer keys. Assigning to a
  present key keeps the key's position. Assigning to a new key appends it.
- `Redmine`: dates, start dates, relations, issues as fetched, and response entries.
- `Decimal`: the decimal rendering of an issue id inside its URI, and reading it back.
- `Rules`: the per-record rules. These are the candidate test, the target of a
  relation, the parent exclusion, the future-start test and the rendering of an entry.
- `Selection`, `SelectionList`: the reference definition of the result. They
  also show that it determines a single list.
- `Filter`: the handler's dictionary passes, as written.
- `FilterProof`: proof that the passes compute the reference definition.
- `Properties`: the exclusion rules, inert relations, visiting order and
  distinctness, each stated in terms of the response.
- `Handler`: reading the decoded query arguments as Tornado's `get_argument`
  does (the last value of a repeated name counts, control characters become
  spaces, surrounding whitespace is stripped), the check on them, and the
  shape of the response.

The fetched list may contain an id more than once; no precondition rules
that out. The dictionaries then behave as Python's do:

- `issue_all` keeps the record listed last with an id.
- `issue_user` keeps the record listed last among those assigned to the user.
- A candidate keeps the dictionary position of its first assigned record.

The reference definition says the same with `LastIndex`, `LastAssigned` and
`FirstAssigned`.

The model follows this revision of `app.py`:

- Candidates are the issues assigned directly to the user (app.py:107-108).
- An excluded candidate is overwritten with `None` (app.py:120-135, 153) and
  skipped when the response is assembled (app.py:158-159).
- A relation is read as `(relation_type, issue_id, issue_to_id)` exactly as
  the tracker reports it, whichever issue carries it (app.py:117-132).
- The parent of every open issue is excluded, whether or not the parent is
  open itself (app.py:134-135).
- The `issues` list is built in the order of `issue_user`'s keys
  (app.py:158-176). That order is the first assigned appearance of each id
  in the fetched list (app.py:105-108).
- A repeated id in the fetched list overwrites the earlier value in each
  dictionary (app.py:106, 108).

## Model

| member | source | states |
|---|---|---|
| Filter.CollectMaps | app.py:104-108 | The keys of `issue_all` are exactly the fetched ids. The keys of `issue_user` are exactly the ids that have a fetched record assigned to the user. |
| Filter.CollectAllRecords | app.py:105-106 | Under every open id, `issue_all` holds the record listed last with that id, because later assignments overwrite earlier ones. |
| Filter.CollectUserRecords | app.py:105-108 | Under every candidate id, `issue_user` holds the record listed last among the records with that id that are assigned to the user. |
| Filter.CollectUserOrder | app.py:105-108 | The keys of `issue_user` are ordered by the position of each id's first assigned record in the fetched list. |
| Dicts.Dict.Put | app.py:106-108 | Assigning to a key stores the value under it and leaves every other key's value alone. A present key keeps its position and a new key goes last. |
| Rules.AssignedTo | app.py:107 | The candidate test: the issue has an assignee and it is the current user. `Properties.ListedOnlyIfAssigned` states its effect on the response. |
| Rules.RelationTarget | app.py:117-132 | `blocks` and `precedes` exclude `issue_to_id` exactly when `issue_id` is open. `blocked_by` and `follows` exclude `issue_id` exactly when `issue_to_id` is open. Other types exclude nothing. An excluded id is always one end of the relation, and its other end is open. |
| Rules.ParentExclusion | app.py:134-135 | An issue excludes its parent, whether or not the parent is open, and no other id. |
| Rules.RelationExclusionsSnoc | app.py:117-132 | One more relation adds to the excluded ids exactly the id that its type and open end exclude, and nothing when it excludes nothing. |
| Filter.MarkRelations | app.py:117-132 | After the relation loop of one issue, exactly the ids its relations exclude hold `None`. Those ids are added as keys if absent. Every other value is unchanged, and no existing key moves. |
| Filter.MarkLinked | app.py:115-135 | After the relation and parent pass, exactly the ids excluded by some open issue hold `None`. Every other candidate keeps its record, so an excluded candidate is never reinstated. |
| Filter.ConsistentKept | app.py:120-135 | A pass that writes only `None` keeps every surviving record under its own id. |
| FilterProof.LinkedPassExcludes | app.py:115-135 | The ids that the relation and parent pass excludes are exactly the relation targets and parents of the records that `issue_all` keeps. |
| Rules.StartsAfter | app.py:150-153 | The future-start test: the start date is readable and strictly later than the pivot date. `Properties.StartDateDecides` states its effect on the response. |
| Filter.Dated | app.py:150-153 | The start-date check drops a value exactly when it is a candidate that starts after the pivot date. Otherwise the value is left as it was. |
| Filter.DropFuture | app.py:141-155 | Reading each value as the loop reaches it, the start-date loop replaces a candidate with `None` exactly when the candidate starts after the pivot date. Keys, their order, and every excluded entry stay as they were. |
| FilterProof.DatedValueAt | app.py:141-155 | After all exclusions, a key holds the reported record when the id is reported, and `None` otherwise. |
| Filter.Survivors | app.py:104-155 | `issue_user` after all three passes is a well-formed dictionary, and every record left in it sits under its own id. |
| Filter.AssembleSound | app.py:158-176 | Every rendered entry is the rendering of a surviving record stored under the entry's local id. |
| Filter.Assemble | app.py:158-176 | The result loop yields no more entries than `issue_user` has keys. `Filter.AssembleSound` and `FilterProof.EntriesInFetchOrder` state what each entry holds and in which order. |
| Rules.ToEntry | app.py:162-174 | The URI starts with the URL followed by `issues/`. `local_id` is the issue id. `parent_local_id` is present exactly when the issue has a parent. Subject, description and done ratio are copied. |
| Rules.EntryUriReadsBack | app.py:163 | What follows `issues/` in an entry's URI reads back as the issue id. |
| Decimal.ParseIntToString | app.py:163 | Reading back the decimal rendering of any integer gives that integer. |
| Decimal.IntToStringInjective | app.py:163 | Distinct issue ids render as distinct digit strings. |
| Selection.LastIndex | app.py:105-106 | The record kept for an open id is at the last position that has that id. |
| Selection.LastAssigned | app.py:107-108 | The record kept for a candidate is at the last position that has that id and is assigned to the user. |
| Selection.FirstAssigned | app.py:107-108 | A candidate's position in `issue_user` comes from the first position that has that id and is assigned to the user. |
| SelectionList.ReportedListUnique | app.py:158-176 | At most one list has one entry per reported id, each built from that id's reported record and ordered by first assigned appearance. |
| FilterProof.EntriesAreReported | app.py:158-176 | Every entry of the response belongs to a reported id and renders that id's last assigned record. |
| FilterProof.ReportedHaveEntries | app.py:158-176 | Every reported id has an entry in the response. |
| FilterProof.EntriesInFetchOrder | app.py:158-176 | Response entries are ordered by strictly increasing position of each id's first assigned record. |
| FilterProof.ActionablesMeetSelection | app.py:94-176 | The response is the list the reference selection determines: assigned open ids minus relation, parent and future-start exclusions. |
| FilterProof.ActionablesCharacterised | app.py:94-176 | A list is the handler's response exactly when it is the one the reference selection determines. |
| Filter.Actionables | app.py:94-176 | The `issues` list of the response. `FilterProof.ActionablesCharacterised` states that it is exactly the list the reference selection determines. |
| Properties.ListedIffReported | app.py:94-176 | An id appears in the response exactly when it is a candidate and no relation, parent link or future start date excludes it. |
| Properties.ListedOnlyIfAssigned | app.py:105-108 | An id appears only if some fetched record with that id is assigned to the user. Unassigned issues are never listed. |
| Properties.LinkedByLast | app.py:115-135 | Every id that the record kept in `issue_all` excludes, through a relation or as its parent, is a linked exclusion and is not listed in the response. |
| Properties.ForwardRelationExcludesTarget | app.py:118-128 | For a `blocks` or `precedes` relation on a kept record whose `issue_id` is open, `issue_to_id` is never listed. |
| Properties.BackwardRelationExcludesSource | app.py:122-132 | For a `blocked_by` or `follows` relation on a kept record whose `issue_to_id` is open, `issue_id` is never listed. |
| Properties.ClosedForwardRelationIgnored | app.py:118-128 | Adding a `blocks` or `precedes` relation whose `issue_id` is not open leaves the response unchanged. |
| Properties.ClosedBackwardRelationIgnored | app.py:122-132 | Adding a `blocked_by` or `follows` relation whose `issue_to_id` is not open leaves the response unchanged. |
| Properties.OtherRelationTypesIgnored | app.py:117-132 | Adding a relation of any other type leaves the response unchanged. |
| Properties.RelationOrderIgnored | app.py:117-132 | Reordering or repeating the relations of a record leaves the response unchanged. |
| Properties.PositionsIgnoreRelations | app.py:105-108 | Changing only relations moves no record: open ids, candidates, and the last, last assigned and first assigned positions stay the same. |
| Properties.ResponseIgnoresInertRelations | app.py:115-135 | Changing relations in a way that excludes the same ids leaves the response unchanged. |
| Properties.ParentNeverListed | app.py:134-135 | The parent of a kept open issue is never listed, even when the parent is assigned to the user and even when it is not open. |
| Properties.ReportedUnlessFuture | app.py:141-155 | A candidate no relation or parent excludes is reported exactly when its reported record does not start after the pivot date. |
| Properties.StartDateDecides | app.py:141-155 | A candidate no relation or parent excludes is listed exactly when its start date is absent, unreadable, equal to the pivot date or earlier. |
| Properties.FutureStartNeverListed | app.py:150-153 | A candidate whose start date is later than the pivot date is never listed. |
| Properties.EntriesDistinct | app.py:158-176 | Two entries of the response differ in `local_id` and in `uri`. |
| Properties.InResponse | app.py:158-176 | An entry is in the response exactly when it renders the kept record of a reported id. |
| Properties.ReportedIgnoresFetchOrder | app.py:105-155 | With unique ids, fetching the same issues in another order gives the same open ids, candidates and reported ids. |
| Properties.ResponseIgnoresFetchOrder | app.py:105-176 | With unique ids, fetching the same issues in another order gives the same set of entries; only their order follows the fetch. |
| Handler.LeadingSpace | app.py:71-76 | Counts the whitespace an argument starts with: every character before that count is whitespace, and the character at it, if any, is not. |
| Handler.Strip | app.py:71-76 | The result is the part of the argument that follows its leading whitespace, and only whitespace follows it in the argument. It is empty exactly when the argument is all whitespace; otherwise it starts and ends with a character that is not whitespace. |
| Handler.StripDetermined | app.py:71-76 | Any string that is that part of the argument, is followed only by whitespace and does not end in whitespace is the stripped argument, so the contract of `Handler.Strip` determines its result. |
| Handler.StripIdempotent | app.py:71-76 | Stripping an already stripped argument changes nothing. |
| Handler.Argument | app.py:71-76 | An argument with no value is missing. Otherwise its last value counts: with control characters turned into spaces and then stripped, it is empty exactly when that value holds only whitespace and control characters. |
| Handler.Get | app.py:69-84 | A `url` or `apikey` with no value, or whose last value holds only whitespace and control characters, yields status 400 with the handler's reason for it, and no other decoded arguments do. A valid request yields the stripped URL, the user id and the entries filtered with that URL. |
| Handler.LastValueCounts | app.py:71-76 | Earlier values of a repeated `url` or `apikey` never change the response; only the last one does. |
| Handler.RejectedBeforeTracker | app.py:71-82 | A rejected request does not depend on the user id, the fetched issues or the date, so nothing from the tracker is needed. |

## Left out

- Tornado wiring is not modelled because it is process plumbing and concurrency. This covers `make_app`, `main`, signal handling, the socket and the IOLoop (app.py:188-258).
- `HealthHandler` and `Oas3Handler` are not modelled because they run a git subprocess and read a file (app.py:21-55).
- The CORS headers and the `options` handler are HTTP header plumbing (app.py:59-67). The CORS test expects `content-type` in the allowed headers, but app.py:61 sets only `x-requested-with`.
- The Redmine client calls are foreign I/O (app.py:82-102). The model takes the current user's id and the fetched open issues as parameters of `Handler.Get`.
- The `AuthError` to 403 mapping is not modelled, because it comes from those client calls (app.py:184-185).
- `datetime.today()` is a clock: today's date is a parameter (app.py:138).
- URI normalisation through `urlparse`/`urlunparse` is library behaviour (app.py:164). The entry's URI is the unnormalised string `url + "issues/" + id`.
- JSON serialisation of the response is not modelled (app.py:180).
- Python's attribute-presence checks are modelled as `Option` fields:
  - an issue without `assigned_to`, `parent`, `subject`, `description` or `done_ratio` has `None` there;
  - a `start_date` that is listed but cannot be read is `Unreadable`.
- Handler.Argument: takes each value already decoded. Tornado decodes the raw bytes as UTF-8 and answers undecodable bytes with its own status 400 ("Invalid unicode in url: ..." or "... in apikey: ..."). That decoding error is not modelled, because the model has no byte-level query.
- Handler.Get: its failure cases are the blank-argument ones only. The UTF-8 decoding error above also ends a request with status 400, raised inside `get_argument` at app.py:71 or app.py:74, and is not modelled.
- Handler.Strip: strips the ASCII whitespace Python's `str.isspace` accepts. Non-ASCII whitespace, such as U+00A0 or U+2028, is not modelled.
- Dates are `(year, month, day)` triples compared lexicographically. Calendar validity is not modelled.
- Properties.ResponseIgnoresFetchOrder: is stated only for fetched lists with unique ids. With a repeated id, which record the dictionaries keep depends on the order.
- Properties.ReportedIgnoresFetchOrder: is stated only for fetched lists with unique ids, for the same reason.
