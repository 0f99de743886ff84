# Intern-programme backend core, modelled in Dafny

This project models the core of a backend for an internship programme. Candidates
register and file an intern application. HR staff post vacancies that carry tags.
Users send one another feedback and mailings. The modelled parts are:

- **Eligibility** (`verify`). An application is `verified` when the citizenship
  is "RU", the age in whole calendar years is 18..35 and graduation is at most
  one year ahead. Otherwise it is `unverified`. The status is written onto the
  application in place.
- **The crud layer over the database tables.** Tables are sequences of rows (one
  fixed order standing for the order a query without ORDER BY returns), keyed maps where the key is another table's key, and a `Store` class
  whose methods add, overwrite and delete rows. The store enforces the same
  constraints the database enforces on commit: unique email, unique tag name,
  one application per user, one offer per vacancy, and foreign keys.
- **The read queries.** These are the lookups by key or email, the offset/limit
  pages, the feedback and mailing boxes of a user, and the vacancy listing. The
  listing either pages the whole table, or inner-joins vacancies to their tags
  and keeps the rows matching an OR of tag, organisation and city. The model
  also has the three "top 10 by count" summaries of tags, cities and
  organisations.
- **Role and status vocabularies** and the column defaults of new rows.
- **The settings validators**: the CORS origin list, the database DSN and the
  JWT algorithm.

Modules: `Wrappers` (Option, Result), `Constants` (roles, feedback and mailing
types), `Models` (rows, statuses, defaults), `Eligibility` (the decision and
the in-place `Verify`), `Tables` (lookups and pages), `VacancyListing`
(`get_vacancies`), `Summaries` (the top-10 queries), `Crud` (the `Store`
class), `Settings`.

The current year and the column-default timestamps are parameters. The source
reads them from the clock: `datetime.now()` in `verify`, and three separate
`datetime.datetime.now()` calls made once, when app/data/models.py is imported,
as the defaults of `users.first_access`, `users.last_access` and
`mentor_vacancy_offers.created_at` (app/data/models.py:39-44, 314-316). Every
row of a run gets the same value for one of these columns, but the three
columns may differ. `Store.times` holds the three values.

Facts about the code that shape the model:

- `delete_vacancy` (app/data/crud.py:272-274) issues a bulk delete. Nothing
  removes the vacancy's tag links or its offer first, so the foreign keys of
  `vacancy_tags` and `mentor_vacancy_offers` (app/data/models.py:298-302,
  309-311) refuse it. `DeleteVacancy` fails on a tagged or offered vacancy.
- No code in the repository calls `verify`
  (app/service/verify_intern_application.py:7); it is modelled on its own.
- The only `mentor_status` the code writes is the column default `pending`
  (app/data/models.py:317). `OfferStatus` also names `active` and `declined`,
  which nothing writes.
- `update_user` (app/data/crud.py:28-43) assigns `db_user.role_id`, but the
  user table has no such column (app/data/models.py:19-48). When the update's
  `role_id` is missing or 0, the source reads the missing attribute and raises
  before the commit, so nothing is stored. A router passes the schema through
  (app/routers/users.py:120-125), where `role_id` is optional. A truthy
  `role_id` is set on the object only, and never stored.

## Model

| member | source | states |
|---|---|---|
| Constants.UserRole.Code | app/data/constants.py:14-18 | each role's code is in 0..4 and decodes back to the same role |
| Constants.UserRole.Name | app/data/constants.py:4-18 | each role's name decodes back to the same role |
| Constants.RoleOfCode | app/data/constants.py:4-18 | a code denotes a role exactly when it is in 0..4 |
| Constants.RoleOfName | app/data/constants.py:14-18 | a name denotes a role exactly when it is one of the five member names |
| Constants.RoleCodeRoundTrip | app/data/constants.py:14-18 | decoding then encoding any code in 0..4 gives the code back |
| Constants.RoleCodesDistinct | app/data/constants.py:14-18 | two different roles have different codes |
| Constants.FeedbackType.Value | app/data/constants.py:21-23 | each feedback type's value decodes back to it |
| Constants.FeedbackTypeOf | app/data/constants.py:21-23 | exactly "received" and "sent" are feedback types |
| Constants.MailingType.Value | app/data/constants.py:26-28 | each mailing type's value decodes back to it |
| Constants.MailingTypeOf | app/data/constants.py:26-28 | exactly "received" and "sent" are mailing types |
| Models.VacancyStatus.Name | app/data/models.py:241-250 | each vacancy status's text decodes back to it |
| Models.VacancyStatusOf | app/data/models.py:241-250 | exactly hidden, pending, accepted, published and closed are vacancy statuses |
| Models.ApplicationStatus.Name | app/data/models.py:193-199 | each application status's text decodes back to it |
| Models.ApplicationStatusOf | app/data/models.py:193-199 | exactly unverified, verified, approved and declined are application statuses |
| Models.OfferStatus.Name | app/data/models.py:317 | each offer status's text decodes back to it |
| Models.OfferStatusOf | app/data/models.py:317 | exactly pending, active and declined are offer statuses |
| Models.NewUser | app/data/models.py:30-48 | a new user keeps the form's fields and gets the defaults: role candidate, active, policy agreed, last_ip 127.0.0.1, first_access and last_access from their own import-time defaults, no vk or telegram |
| Models.NewOffer | app/data/models.py:306-317 | a new offer is keyed by its vacancy, has status pending and takes created_at from its import-time default |
| Eligibility.Decide | app/service/verify_intern_application.py:20-26 | the status is verified or unverified, and verified exactly when citizenship is "RU", the birth year is 18..35 years before the current year and graduation is at most one year ahead |
| Eligibility.ForeignCitizenUnverified | app/service/verify_intern_application.py:21 | any citizenship other than exactly "RU" gives unverified, whatever the dates |
| Eligibility.AgeBoundaries | app/service/verify_intern_application.py:22 | ages 18 and 35 pass and 17 and 36 fail, for any birth month and day |
| Eligibility.GraduationBoundaries | app/service/verify_intern_application.py:23-25 | any past or current graduation year passes, next year passes, two or more years ahead fails |
| Eligibility.OnlyYearsMatter | app/service/verify_intern_application.py:22-25 | two applications whose birth and graduation years agree get the same status |
| Eligibility.ApplicationRecord.constructor | app/data/models.py:185-192 | the record holds exactly the given row |
| Eligibility.Verify | app/service/verify_intern_application.py:7-37 | the same object is returned; its status becomes the decision and no other field changes |
| Tables.FindFirst | app/data/crud.py:8-13 | a found row is in the table and matches; no row means no row matches |
| Tables.FindFirstFindsTheOnly | app/data/crud.py:8-13 | when exactly one row matches, the lookup returns that row |
| Tables.UserById | app/data/crud.py:8-9 | the user found has the id; none is found exactly when no user has it |
| Tables.UserByEmail | app/data/crud.py:12-13 | the user found has the email; none is found only when no user has it |
| Tables.UserByEmailFindsOwner | app/data/models.py:31 | with unique emails, looking up a user's email finds that user |
| Tables.TagByName | app/data/crud.py:225 | the tag found has the name; none is found exactly when no tag has it |
| Tables.TagById | app/data/models.py:289 | the tag found has the key; none is found exactly when no tag has it |
| Tables.TagByIdFindsTag | app/data/models.py:289 | with unique keys, looking up a tag's key finds that tag |
| Tables.Page | app/data/crud.py:16-17 | a page holds min(limit, rows after offset) rows, the i-th being row offset+i |
| Tables.PagesConcatenate | app/data/crud.py:49-52 | a page of a rows followed by the next page of b rows is the page of a+b rows |
| Tables.FirstPageIsTable | app/data/crud.py:16-17 | a first page whose limit covers the table is the whole table |
| Tables.Select | app/data/crud.py:70-71 | the kept rows are exactly the table's matching rows |
| Tables.SelectAppend | app/data/crud.py:70-71 | the filter keeps table order: filtering two tables in a row is filtering each and concatenating |
| Tables.SelectOne | app/data/crud.py:70-71 | a single row is kept exactly when it matches |
| Tables.SelectAll | app/data/crud.py:70-71 | a filter every row passes keeps the whole table |
| Tables.PageWhere | app/data/crud.py:69-75 | min(limit, matching rows after offset) rows, the i-th being the matching row at position offset+i in the model's row order (see Left out); each a matching row of the table; all of them when the page covers the table |
| Tables.PageWhereConcatenates | app/data/crud.py:69-75 | a page of a matching rows followed by the next page of b is the page of a+b |
| Tables.ReceivedFeedbacks | app/data/crud.py:66-75 | min(limit, addressed rows after offset) rows, the i-th being the feedback addressed to the user at position offset+i in the model's row order (see Left out); all of it when the page covers the table |
| Tables.SentFeedbacks | app/data/crud.py:78-87 | min(limit, written rows after offset) rows, the i-th being the feedback written by the user at position offset+i in the model's row order (see Left out); all of it when the page covers the table |
| Tables.SentMailings | app/data/crud.py:299-308 | min(limit, sent rows after offset) rows, the i-th being the mailing sent by the user at position offset+i in the model's row order (see Left out); all of them when the page covers the table |
| Tables.ReceivedMailings | app/data/crud.py:311-320 | min(limit, received rows after offset) rows, the i-th being the mailing addressed to the user at position offset+i in the model's row order (see Left out); all of them when the page covers the table |
| Tables.ApplicationOf | app/data/crud.py:131-132 | the user's application is present exactly when one is stored under the user's key |
| VacancyListing.Upper | app/data/crud.py:260 | a Latin or basic Cyrillic small letter becomes a capital; any other character is kept |
| VacancyListing.FoldChar | app/data/crud.py:260 | a Latin or basic Cyrillic capital becomes the small letter whose capital it is (`Upper` of the result gives it back); any other character is kept; the result is never a capital |
| VacancyListing.CaseRoundTrip | app/data/crud.py:260 | folding and upper-casing undo each other on the small and on the capital letters, for every character |
| VacancyListing.DistinctLettersDiffer | app/data/crud.py:260 | two different small letters, in either case, never fold to the same letter, so ILIKE does not equate them |
| VacancyListing.Fold | app/data/crud.py:260 | the folded text has the same length; each capital is replaced by its own small letter and every other character kept; the result has no capital |
| VacancyListing.HasInfixIff | app/data/crud.py:260 | the '%pattern%' match holds exactly when the pattern occurs at some position of the text |
| VacancyListing.EmptyPatternMatchesAll | app/data/crud.py:260 | the pattern '%%' matches every address |
| VacancyListing.MatchIgnoresCase | app/data/crud.py:260 | for all texts and patterns, changing the case of any letters in either leaves the match unchanged |
| VacancyListing.MatchExample | app/data/crud.py:260 | "Москва" is found in "г. МОСКВА" |
| VacancyListing.NamesOf | app/data/models.py:270-276 | the names are exactly those of the tags the links name; when every link names a tag, the i-th name is that of the tag with the i-th key |
| VacancyListing.JoinRowsMembership | app/data/crud.py:253-255 | a row is in the inner join exactly when its vacancy is in the table and its name is one of that vacancy's tag names |
| VacancyListing.VacancyMatchesIff | app/data/crud.py:256-262 | a vacancy matches exactly when one of its tag names is requested, or its organisation is requested, or its address contains the city text ignoring case |
| VacancyListing.FirstOfEachId | app/data/crud.py:253-266 | the uniqued result only holds vacancies of the input whose key was not seen before |
| VacancyListing.FirstOfEachIdKeepsIds | app/data/crud.py:253-266 | uniquing keeps one vacancy for every key that occurs |
| VacancyListing.FirstOfEachIdDistinct | app/data/crud.py:253-266 | uniquing leaves no two vacancies with the same key |
| VacancyListing.GetVacancies | app/data/crud.py:239-269 | at most limit vacancies; with every filter missing or empty, the plain page of the vacancy table |
| VacancyListing.GetVacanciesSound | app/data/crud.py:253-266 | with a filter given, every listed vacancy is in the table, has a tag and matches the filter |
| VacancyListing.FilteredVacanciesSound | app/data/crud.py:253-266 | every vacancy of a filtered join row is in the table |
| VacancyListing.FilteredVacanciesCover | app/data/crud.py:253-266 | a matching vacancy of the table is among the filtered rows, and there are no more filtered rows than join rows |
| VacancyListing.GetVacanciesComplete | app/data/crud.py:253-266 | with a filter given and a first page covering the join, every matching vacancy is listed |
| VacancyListing.SameIdSameVacancy | app/data/models.py:224 | with unique keys, two vacancies with the same key are the same vacancy |
| VacancyListing.EmptyCityMatchesEveryTaggedVacancy | app/data/crud.py:251-260 | an empty city text is no filter of its own, but once another filter is given it becomes the pattern '%%', and every vacancy that has a tag matches |
| VacancyListing.MissingCityMatchesNone | app/data/crud.py:243-260 | a missing city is rendered as the text "None", so an address containing "none" matches |
| Summaries.CountPositive | app/data/crud.py:163-175 | a value that occurs has a positive count |
| Summaries.Distinct | app/data/crud.py:168 | the groups are exactly the values that occur, each once |
| Summaries.Tally | app/data/crud.py:163-175 | the tally holds exactly the pairs of an occurring value and its count, one per value |
| Summaries.InsertByCountPermutes | app/data/crud.py:169 | inserting an entry adds exactly that entry |
| Summaries.InsertByCountOrders | app/data/crud.py:169 | inserting into a list ordered by count keeps it ordered |
| Summaries.SortByCountCorrect | app/data/crud.py:169 | sorting by count gives a permutation in non-increasing count order |
| Summaries.SamePermutationNoRepeats | app/data/crud.py:168-169 | reordering a list without repeats leaves no repeats |
| Summaries.OnceAtMost | app/data/crud.py:168 | a list without repeats holds each value at most once |
| Summaries.SortedTallyCorrect | app/data/crud.py:165-169 | the sorted tally has one entry per distinct value, with true counts, without repeats, in non-increasing count order |
| Summaries.TopPrefixCorrect | app/data/crud.py:170 | the first min(10, n) entries of a sorted true tally form a top summary |
| Summaries.TopCountsCorrect | app/data/crud.py:163-175 | at most 10 distinct values with their true counts, in non-increasing count order; any value left out means 10 entries, none counted below it |
| Summaries.TopValuesCorrect | app/data/crud.py:163-175 | the values of the top tally are distinct values of the input, at most 10, in non-increasing count order; a value left out means 10 entries, none counted below it |
| Summaries.CityOf | app/data/crud.py:182 | a city is the part of the address before its first comma, or the whole address when it has none |
| Summaries.TagSummaryCorrect | app/data/crud.py:163-175 | at most 10 tag names, each linked to some vacancy and paired with its number of links, in non-increasing count order; a name left out means 10 entries, none counted below it |
| Summaries.CitySummaryCorrect | app/data/crud.py:178-191 | at most 10 distinct cities, each the comma-free first field of some address, in non-increasing order of frequency; a city left out means 10 entries, none less frequent than it |
| Summaries.OrganisationSummaryCorrect | app/data/crud.py:194-207 | at most 10 distinct organisations, each some vacancy's, in non-increasing order of frequency; one left out means 10 entries, none less frequent than it |
| Settings.StripStart | app/utils/settings.py:25 | the result is a suffix; what was dropped is whitespace; it does not start with whitespace |
| Settings.StripEnd | app/utils/settings.py:25 | the result is a prefix; what was dropped is whitespace; it does not end with whitespace |
| Settings.StripCorrect | app/utils/settings.py:25 | the stripped text is the middle of the input, with whitespace only around it and none at its ends |
| Settings.SliceOfSuffix | app/utils/settings.py:25 | a prefix of a suffix of a text is a slice of that text |
| Settings.StripIsSlice | app/utils/settings.py:25 | the stripped text is the slice of the input after its leading whitespace |
| Settings.StripEndsWithoutSpace | app/utils/settings.py:25 | a non-empty stripped text neither starts nor ends with whitespace |
| Settings.TailOfSuffix | app/utils/settings.py:25 | what follows a prefix that was cut off a suffix consists of the dropped characters |
| Settings.StripDropsTrailingSpace | app/utils/settings.py:25 | everything after the stripped text is whitespace |
| Settings.StripIdempotent | app/utils/settings.py:25 | stripping twice is stripping once |
| Settings.SplitCommas | app/utils/settings.py:25 | splitting gives one more piece than there are commas, and no piece holds a comma |
| Settings.SplitJoinRoundTrip | app/utils/settings.py:25 | joining the pieces with commas gives the text back |
| Settings.AssembleCorsOrigins | app/utils/settings.py:22-28 | a list, or a text starting with "[", is kept; another text becomes its stripped comma-separated pieces, one more than its commas; any other value is an error |
| Settings.StrippedPieceHasNoComma | app/utils/settings.py:25 | stripping a piece without a comma leaves none |
| Settings.SplitCons | app/utils/settings.py:25 | a non-comma first character joins the first piece |
| Settings.SplitExample | app/utils/settings.py:25 | "a, b" splits into "a" and " b" |
| Settings.StripKeepsWord | app/utils/settings.py:25 | stripping "a" leaves "a" |
| Settings.StripDropsSpace | app/utils/settings.py:25 | stripping " b" gives "b" |
| Settings.CorsExample | app/utils/settings.py:24-25 | "a, b" becomes the list "a", "b" |
| Settings.AssembleDbConnection | app/utils/settings.py:36-49 | a given URI is kept; otherwise a postgresql DSN from the given user and password, host 127.0.0.1 when the server is missing or empty, path "/" plus the database name |
| Settings.CheckAlgorithm | app/utils/settings.py:54-59 | accepted and unchanged exactly when the name is a key of the library's hash table, else an error listing the supported names |
| Settings.AcceptedAlgorithmsAreJws | app/utils/settings.py:52-59 | every accepted name is a JWS algorithm of section 3.1 of RFC 7518 other than "none"; "none" and PS256 are refused; the default HS256 is accepted |
| Crud.MergeUser | app/data/crud.py:32-37 | only email, fio, phone, birthday and gender can change; phone keeps the old value when the new one is falsy; role_id never reaches the row |
| Crud.UpdateOutcome | app/data/crud.py:28-43 | an unknown id fails with "User not found"; otherwise a missing or zero role_id fails on the missing attribute; otherwise an email of another user is refused; otherwise the user's position and merged row |
| Crud.MergeUserIdempotent | app/data/crud.py:32-37 | applying the same update twice is applying it once |
| Crud.FalsyRoleIdRefused | app/data/crud.py:35 | an update without a role_id, or with the mentor's code 0, always fails, and on an existing user with the missing attribute |
| Crud.RoleIdNeverStored | app/data/crud.py:35 | two updates that differ only in their truthy role_id have the same outcome |
| Crud.NewApplication | app/data/crud.py:104-111 | a new application is keyed by its user, holds the form's fields, and has no status or city yet |
| Crud.MergeApplication | app/data/crud.py:114-128 | the update overwrites exactly the five form fields; id, status and city are kept |
| Crud.MergeApplicationRestores | app/data/crud.py:119-123 | updating with the form an application was created from changes nothing |
| Crud.RemoveOwnFeedback | app/data/crud.py:90-95 | the rows left are exactly those that do not both have the id and the user as sender; with no such row the table is unchanged |
| Crud.RemoveOwnFeedbackKeepsOrder | app/data/crud.py:90-95 | the rows left are the filter of the table by "not this id from this sender", in table order |
| Crud.RemoveOwnFeedbackAtMostOne | app/data/crud.py:90-95 | with unique keys, a deletion removes at most one row |
| Crud.RemovePreservesUniqueIds | app/data/crud.py:90-95 | keys stay unique after a deletion |
| Crud.RemoveVacancy | app/data/crud.py:272-274 | the rows left are exactly those with another key |
| Crud.RemoveVacancyKeepsOrder | app/data/crud.py:272-274 | the vacancies left are the filter of the table by "another key", in table order |
| Crud.RemoveVacancyPreservesUniqueIds | app/data/crud.py:272-274 | keys stay unique after a deletion |
| Crud.SameNameSameTag | app/data/models.py:290 | with unique names, two tags with the same name are the same tag |
| Crud.TagKeysResolve | app/data/crud.py:223-233 | every key the tag loop returns is the key of some tag |
| Crud.TagsGrowKeepKeys | app/data/crud.py:223-231 | tag links of the existing vacancies still name tags after the tag table grew |
| Crud.UniqueConsFeedback | app/data/models.py:121 | a row whose key no other row has can be put in front of a table with unique keys |
| Crud.ReuseTagStep | app/data/crud.py:223-231 | taking the existing tag of a name keeps the tag loop's facts |
| Crud.InsertTagStep | app/data/crud.py:226-231 | inserting a tag for a missing name with the next key keeps tag keys and names unique and the tag loop's facts |
| Crud.AppendUserOk | app/data/models.py:30-31 | a new user with the next key and an unused email keeps keys and emails unique and loses no key |
| Crud.ReplaceUserOk | app/data/models.py:30-31 | replacing a user by a row with the same key and an email no other user has keeps keys and emails unique and loses no key |
| Crud.UserKeysKept | app/data/models.py:122-123 | when no user key is lost, every foreign key into users still refers to a user |
| Crud.AppendFeedbackOk | app/data/models.py:121-123 | a new feedback row with the next key between two users keeps the table's constraints |
| Crud.RemoveFeedbackOk | app/data/crud.py:90-95 | deleting feedback keeps the table's constraints |
| Crud.AppendVacancyOk | app/data/models.py:224-230 | a new vacancy with the next key, an existing hr and links to existing tags keeps the table's constraints, also over a grown tag table |
| Crud.VacanciesGrowKeepOffers | app/data/models.py:310-312 | offers keep referring to vacancies when vacancies are only added |
| Crud.RemoveVacancyOk | app/data/crud.py:272-274 | deleting the vacancies of a key no offer uses keeps the vacancy and offer constraints |
| Crud.AppendMailingOk | app/data/models.py:362-364 | a new mailing with the next key between two users keeps the table's constraints |
| Crud.UserIndex | app/data/crud.py:29-31 | the position found holds the user with the key; none exactly when no user has it |
| Crud.Store.constructor | app/data/models.py:30 | all tables start empty, every key counter at 1, the import-time defaults are the given ones, and the table constraints hold |
| Crud.Store.CreateUser | app/data/crud.py:20-25 | a taken email is refused with the table unchanged; otherwise the new user with the defaults is appended; the table invariants hold |
| Crud.Store.UpdateUser | app/data/crud.py:28-43 | on every failure of UpdateOutcome the same error with the table unchanged; otherwise the user's row is replaced by the merged row; invariants hold |
| Crud.Store.CreateFeedback | app/data/crud.py:55-63 | a missing sender or target is refused; otherwise the new row is appended; invariants hold |
| Crud.Store.DeleteFeedback | app/data/crud.py:90-95 | the table becomes the table without the user's own row with that id; invariants hold |
| Crud.Store.CreateInternApplication | app/data/crud.py:104-111 | a second application or an unknown user is refused; otherwise the new row is stored under the user's key |
| Crud.Store.UpdateInternApplication | app/data/crud.py:114-128 | a user without an application fails; otherwise the merged row replaces it |
| Crud.Store.ResolveTags | app/data/crud.py:223-231 | every requested name gets the key of a tag of that name; existing tags are kept; new tags carry only requested names that were missing; names and keys stay unique |
| Crud.Store.CreateVacancy | app/data/crud.py:210-236 | the new vacancy is appended, hidden, with the caller as hr and no mentor; its tag keys name the requested tags in order, repeated names share one key; tag names stay unique |
| Crud.Store.DeleteVacancy | app/data/crud.py:272-274 | a vacancy with tag links or an offer is refused by the foreign keys; otherwise the rows with the key are removed |
| Crud.Store.CreateMailing | app/data/crud.py:282-296 | the new mailing from the sender to the target is appended; invariants hold |

## Left out

- Routers, authentication (bcrypt, JWT), mail delivery (SMTP, templates), spreadsheet import and country lookup are not part of this model.
- The entities Event, EventScore, UserEnrolment and ExternalServiceLink are not used by the modelled operations and are not modelled.
- `InternApplication.rating` raises NotImplementedError, so there is nothing to model.
- Mentor offer propose/accept/publish, a status-based visibility filter and any path to `declined` do not exist in the code, so they are not modelled. No operation writes the offer table. The `Store` keeps it only for the foreign key that `DeleteVacancy` meets.
- Clocks: the current year in `verify` and the three import-time default timestamps are parameters. Nothing orders the three values: the wall clock they come from need not be monotonic.
- Eligibility.Verify: the source's `verify` is typed with the pydantic application schema, which has no `status` field. The model writes the status onto the row shape that has one.
- Database mechanics are not modelled: sessions, transactions, concurrent writers, `merge`/`refresh`, or the exact values of autoincrement keys. Keys come from one counter per table. In PostgreSQL the sequence also advances on a failed insert.
- Crud.Store.CreateVacancy: each new tag is committed on its own in the source, before the vacancy. The model performs the whole operation at once. It also does not model which association rows the ORM writes for a tag requested twice.
- VacancyListing.Fold: case folding covers ASCII and Cyrillic letters only, not all of Unicode. LIKE wildcards (`%`, `_`) inside the city text are not interpreted.
- VacancyListing.GetVacanciesComplete: completeness is stated for a first page that covers every join row; for other pages only soundness and the size bound are stated, because the uniquing after the limit makes a page's vacancies depend on how many join rows earlier vacancies have.
- Tables.Page, Tables.PagesConcatenate, Tables.PageWhere, Tables.PageWhereConcatenates, Tables.ReceivedFeedbacks, Tables.SentFeedbacks, Tables.SentMailings, Tables.ReceivedMailings: none of the paged queries in app/data/crud.py has an ORDER BY, so PostgreSQL promises no row order and no common order between two page queries. The model fixes one order (the table sequence) for all queries; the contents of a page and the concatenation of consecutive pages hold for that order only, and the program's consecutive pages may overlap or skip rows.
- Summaries.TopCountsCorrect: the order among values with equal counts is left open, as SQL leaves it.
- Settings.AssembleDbConnection: the text that `PostgresDsn.build` renders and its URL validation are library code. The model returns the build arguments.
- Settings.CheckAlgorithm: the nine names are the keys of python-jose's `ALGORITHMS.HASHES` table, a library the repository imports.
- Loading the settings from the environment and pydantic's type coercion are not modelled.
