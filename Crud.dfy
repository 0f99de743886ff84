/**
 * The writing side of app/data/crud.py: an in-memory store of the tables of
 * app/data/models.py whose operations add, overwrite and delete rows the way
 * the crud functions do, including the constraints the database enforces on
 * commit (unique email, unique tag name, one application per user, foreign
 * keys).
 */
module Crud {
  import opened Wrappers
  import opened Models
  import opened Tables

  /** The ways a crud operation fails. */
  datatype CrudError =
    | UserNotFound          // update_user raises Exception("User not found")
    | UniqueViolation       // a unique or primary-key constraint refused the commit
    | ForeignKeyViolation   // a referenced row is missing, or the row is still referenced
    | NoApplication         // the user's `intern_application` is None
    | NoRoleIdAttribute     // reading `role_id`, which the user row does not have, raises AttributeError

  /** The fields of the user schema that `update_user` reads. */
  datatype UserUpdate = UserUpdate(
    id: int,
    email: string,
    fio: string,
    phone: Option<string>,
    roleId: Option<int>,
    birthday: Date,
    gender: string)

  /** Python truthiness: a missing code or the code 0 is false. */
  predicate TruthyCode(c: Option<int>)
  {
    c.Some? && c.value != 0
  }

  /**
   * The row `update_user` leaves: email, fio and gender are overwritten; phone
   * only when the new value is truthy; birthday always, since a date is never
   * falsy. A truthy role_id is set on the object only, as the table has no
   * such column, so it never reaches the row. No other column changes.
   */
  function MergeUser(u: User, upd: UserUpdate): (r: User)
    ensures r.(email := u.email, fio := u.fio, phone := u.phone, birthday := u.birthday, gender := u.gender) == u
    ensures r.email == upd.email && r.fio == upd.fio && r.gender == Some(upd.gender)
    ensures r.phone == (if Truthy(upd.phone) then upd.phone else u.phone)
    ensures r.birthday == upd.birthday
  {
    u.(email := upd.email,
       fio := upd.fio,
       phone := if Truthy(upd.phone) then upd.phone else u.phone,
       birthday := upd.birthday,
       gender := Some(upd.gender))
  }

  /**
   * What `update_user` does with the user table: the position and new row of
   * the updated user, or why it raised. An unknown id raises "User not found".
   * A missing or zero role_id makes the source read `db_user.role_id`, which
   * the row does not have, so it raises before the commit. A new email that
   * another user has is refused by the commit.
   */
  function UpdateOutcome(users: seq<User>, upd: UserUpdate): (r: Result<(nat, User), CrudError>)
    ensures r == Err(UserNotFound) <==> !IsUserId(users, upd.id)
    ensures r == Err(NoRoleIdAttribute) <==> IsUserId(users, upd.id) && !TruthyCode(upd.roleId)
    ensures r == Err(UniqueViolation) <==>
              && IsUserId(users, upd.id) && TruthyCode(upd.roleId)
              && exists u :: u in users && u.email == upd.email && u.id != upd.id
    ensures r.Ok? <==>
              && IsUserId(users, upd.id) && TruthyCode(upd.roleId)
              && forall u :: u in users && u.email == upd.email ==> u.id == upd.id
    ensures r.Ok? ==> r.value.0 < |users| && users[r.value.0].id == upd.id && r.value.1 == MergeUser(users[r.value.0], upd)
  {
    match UserIndex(users, upd.id)
    case None => Err(UserNotFound)
    case Some(i) =>
      if !TruthyCode(upd.roleId) then Err(NoRoleIdAttribute)
      else if FindFirst(users, (u: User) => u.email == upd.email && u.id != upd.id).Some? then Err(UniqueViolation)
      else Ok((i, MergeUser(users[i], upd)))
  }

  /** Applying the same update twice is applying it once. */
  lemma MergeUserIdempotent(u: User, upd: UserUpdate)
    ensures MergeUser(MergeUser(u, upd), upd) == MergeUser(u, upd)
  {
  }

  /**
   * An update without a role_id, or with the mentor's code 0, never succeeds:
   * both are falsy, so the source reads the missing attribute and raises.
   */
  lemma FalsyRoleIdRefused(users: seq<User>, upd: UserUpdate)
    requires upd.roleId == None || upd.roleId == Some(0)
    ensures UpdateOutcome(users, upd).Err?
    ensures IsUserId(users, upd.id) ==> UpdateOutcome(users, upd) == Err(NoRoleIdAttribute)
  {
  }

  /** Which truthy role_id an update carries makes no difference to the table. */
  lemma RoleIdNeverStored(users: seq<User>, upd: UserUpdate, a: int, b: int)
    requires a != 0 && b != 0
    ensures UpdateOutcome(users, upd.(roleId := Some(a))) == UpdateOutcome(users, upd.(roleId := Some(b)))
  {
  }

  /** The fields of the application schema. */
  datatype ApplicationForm = ApplicationForm(
    course: string,
    education: string,
    resume: string,
    citizenship: string,
    graduationDate: Date)

  /** A new application row: keyed by its user, status and city still NULL. */
  function NewApplication(userId: int, form: ApplicationForm): (a: InternApplication)
    ensures a.id == userId && a.status == None && a.city == None
    ensures a.course == form.course && a.education == form.education && a.resume == form.resume
    ensures a.citizenship == form.citizenship && a.graduationDate == form.graduationDate
  {
    InternApplication(userId, form.course, form.education, form.resume, form.citizenship,
                      form.graduationDate, None, None)
  }

  /**
   * The row `update_intern_application` leaves: the five form fields are
   * overwritten; id, status and city are kept.
   */
  function MergeApplication(a: InternApplication, form: ApplicationForm): (r: InternApplication)
    ensures r.id == a.id && r.status == a.status && r.city == a.city
    ensures r == NewApplication(a.id, form).(status := a.status, city := a.city)
  {
    a.(education := form.education,
       course := form.course,
       resume := form.resume,
       citizenship := form.citizenship,
       graduationDate := form.graduationDate)
  }

  /** Updating an application with the form it was created from changes nothing but status and city. */
  lemma MergeApplicationRestores(userId: int, form: ApplicationForm, status: Option<ApplicationStatus>, city: Option<string>)
    ensures MergeApplication(NewApplication(userId, form).(status := status, city := city), form) ==
            NewApplication(userId, form).(status := status, city := city)
  {
  }

  /** The rows a deletion of `feedbackId` by `userId` leaves: all but that key written by that user. */
  function KeptAfterDelete(userId: int, feedbackId: int): Feedback -> bool
  {
    (f: Feedback) => !(f.id == feedbackId && f.senderId == userId)
  }

  /** `delete_feedback`'s table: every row except those with this id written by this user. */
  function RemoveOwnFeedback(feedback: seq<Feedback>, userId: int, feedbackId: int): (r: seq<Feedback>)
    ensures |r| <= |feedback|
    ensures forall f :: f in r <==> f in feedback && !(f.id == feedbackId && f.senderId == userId)
    ensures (forall f :: f in feedback ==> !(f.id == feedbackId && f.senderId == userId)) ==> r == feedback
  {
    if feedback == [] then []
    else
      var rest := RemoveOwnFeedback(feedback[1..], userId, feedbackId);
      if feedback[0].id == feedbackId && feedback[0].senderId == userId then rest
      else [feedback[0]] + rest
  }

  /** With unique feedback ids, a deletion removes at most one row. */
  lemma {:induction false} RemoveOwnFeedbackAtMostOne(feedback: seq<Feedback>, userId: int, feedbackId: int)
    requires UniqueFeedbackIds(feedback)
    ensures |RemoveOwnFeedback(feedback, userId, feedbackId)| >= |feedback| - 1
  {
    if feedback != [] {
      var tail := feedback[1..];
      assert UniqueFeedbackIds(tail) by {
        forall i, j | 0 <= i < j < |tail| ensures tail[i].id != tail[j].id {
          assert tail[i] == feedback[i + 1] && tail[j] == feedback[j + 1];
        }
      }
      if feedback[0].id == feedbackId && feedback[0].senderId == userId {
        forall f | f in tail ensures !(f.id == feedbackId && f.senderId == userId) {
          var k :| 0 <= k < |tail| && tail[k] == f;
          assert feedback[k + 1] == f;
        }
      } else {
        RemoveOwnFeedbackAtMostOne(tail, userId, feedbackId);
      }
    }
  }

  /** The vacancies other than the one keyed `id`. */
  function OtherKey(id: int): Vacancy -> bool
  {
    (v: Vacancy) => v.id != id
  }

  /** The vacancy table without the rows whose key is `id`. */
  function RemoveVacancy(vacancies: seq<Vacancy>, id: int): (r: seq<Vacancy>)
    ensures |r| <= |vacancies|
    ensures forall v :: v in r <==> v in vacancies && v.id != id
  {
    if vacancies == [] then []
    else
      var rest := RemoveVacancy(vacancies[1..], id);
      if vacancies[0].id == id then rest else [vacancies[0]] + rest
  }
  /** `delete_feedback` keeps the remaining rows in their table order. */
  lemma {:induction false} RemoveOwnFeedbackKeepsOrder(feedback: seq<Feedback>, userId: int, feedbackId: int)
    ensures RemoveOwnFeedback(feedback, userId, feedbackId) == Select(feedback, KeptAfterDelete(userId, feedbackId))
  {
    if feedback != [] {
      RemoveOwnFeedbackKeepsOrder(feedback[1..], userId, feedbackId);
    }
  }

  /** `delete_vacancy` keeps the remaining vacancies in their table order. */
  lemma {:induction false} RemoveVacancyKeepsOrder(vacancies: seq<Vacancy>, id: int)
    ensures RemoveVacancy(vacancies, id) == Select(vacancies, OtherKey(id))
  {
    if vacancies != [] {
      RemoveVacancyKeepsOrder(vacancies[1..], id);
    }
  }


  /** The fields a vacancy is created from; `tags` may be missing. */
  datatype VacancyForm = VacancyForm(
    title: string,
    description: string,
    startDate: Timestamp,
    endDate: Timestamp,
    test: string,
    requirements: string,
    organisation: string,
    coordinates: string,
    address: string,
    tags: Option<seq<string>>)

  function RequestedTagNames(form: VacancyForm): seq<string>
  {
    if form.tags.Some? then form.tags.value else []
  }

  /** The fields a mailing is created from. */
  datatype MailingForm = MailingForm(timeSent: Timestamp, subject: string, message: string)

  predicate IsTagId(tags: seq<Tag>, id: int)
  {
    exists t :: t in tags && t.id == id
  }

  predicate IsVacancyId(vacancies: seq<Vacancy>, id: int)
  {
    exists v :: v in vacancies && v.id == id
  }

  /** Two rows with the same tag name are the same row. */
  lemma SameNameSameTag(tags: seq<Tag>, a: Tag, b: Tag)
    requires UniqueTagNames(tags) && a in tags && b in tags && a.name == b.name
    ensures a == b
  {
    var i :| 0 <= i < |tags| && tags[i] == a;
    var j :| 0 <= j < |tags| && tags[j] == b;
    assert tags[i].name == tags[j].name;
  }

  /** The position of the user with key `id`. */
  function UserIndex(users: seq<User>, id: int): (r: Option<nat>)
    ensures r.Some? ==> r.value < |users| && users[r.value].id == id
    ensures r.None? <==> !IsUserId(users, id)
  {
    if users == [] then None
    else if users[0].id == id then Some(0)
    else
      match UserIndex(users[1..], id)
      case None => None
      case Some(k) => Some(k + 1)
  }

  // ---------------------------------------------------------------------
  // The table constraints, one predicate per table
  // ---------------------------------------------------------------------

  /** Keys and emails are unique; every key was issued before `next`. */
  predicate UsersOk(users: seq<User>, next: int)
  {
    UniqueUserIds(users) && UniqueEmails(users) && forall u :: u in users ==> u.id < next
  }

  /** Keys are unique and issued; sender and target are users. */
  predicate FeedbackOk(feedback: seq<Feedback>, next: int, users: seq<User>)
  {
    && UniqueFeedbackIds(feedback)
    && forall f :: f in feedback ==> f.id < next && IsUserId(users, f.senderId) && IsUserId(users, f.targetId)
  }

  /** An application is stored under its own key, which is a user's key. */
  predicate ApplicationsOk(applications: map<int, InternApplication>, users: seq<User>)
  {
    forall k :: k in applications ==> applications[k].id == k && IsUserId(users, k)
  }

  /** Keys are unique and issued; hr and mentor are users; tag links name tags. */
  predicate VacanciesOk(vacancies: seq<Vacancy>, next: int, users: seq<User>, tags: seq<Tag>)
  {
    && UniqueVacancyIds(vacancies)
    && (forall v :: v in vacancies ==>
          && v.id < next && IsUserId(users, v.hrId)
          && (v.mentorId.Some? ==> IsUserId(users, v.mentorId.value)))
    && (forall v, id :: v in vacancies && id in v.tagIds ==> IsTagId(tags, id))
  }

  /** Keys and names are unique; every key was issued before `next`. */
  predicate TagsOk(tags: seq<Tag>, next: int)
  {
    UniqueTagIds(tags) && UniqueTagNames(tags) && forall t :: t in tags ==> t.id < next
  }

  /** An offer is stored under its vacancy's key; vacancy and mentor exist. */
  predicate OffersOk(offers: map<int, MentorVacancyOffer>, vacancies: seq<Vacancy>, users: seq<User>)
  {
    forall k :: k in offers ==>
      offers[k].vacancyId == k && IsVacancyId(vacancies, k) && IsUserId(users, offers[k].mentorId)
  }

  /** Keys are unique and issued; sender and target are users. */
  predicate MailingsOk(mailings: seq<Mailing>, next: int, users: seq<User>)
  {
    && UniqueMailingIds(mailings)
    && forall m :: m in mailings ==> m.id < next && IsUserId(users, m.senderId) && IsUserId(users, m.targetId)
  }

  /** Every key of `before` is still a key of `after`. */
  ghost predicate KeepsUserKeys(before: seq<User>, after: seq<User>)
  {
    forall id :: IsUserId(before, id) ==> IsUserId(after, id)
  }

  /** All the tables, with the next key of each autoincrement column. */
  class Store {
    var users: seq<User>
    var feedback: seq<Feedback>
    var applications: map<int, InternApplication>
    var vacancies: seq<Vacancy>
    var tags: seq<Tag>
    var offers: map<int, MentorVacancyOffer>
    var mailings: seq<Mailing>
    var nextUserId: int
    var nextFeedbackId: int
    var nextVacancyId: int
    var nextTagId: int
    var nextMailingId: int
    /** The values the DateTime column defaults took when the model module was imported. */
    const times: ImportTimes

    /** Keys and unique columns are unique, and every foreign key refers to a row. */
    ghost predicate Valid()
      reads this
    {
      && UsersOk(users, nextUserId)
      && FeedbackOk(feedback, nextFeedbackId, users)
      && ApplicationsOk(applications, users)
      && VacanciesOk(vacancies, nextVacancyId, users, tags)
      && TagsOk(tags, nextTagId)
      && OffersOk(offers, vacancies, users)
      && MailingsOk(mailings, nextMailingId, users)
    }

    constructor (times: ImportTimes)
      ensures Valid() && this.times == times
      ensures users == [] && feedback == [] && applications == map[] && vacancies == []
      ensures tags == [] && offers == map[] && mailings == []
      ensures nextUserId == 1 && nextFeedbackId == 1 && nextVacancyId == 1 && nextTagId == 1 && nextMailingId == 1
    {
      users, feedback, applications, vacancies := [], [], map[], [];
      tags, offers, mailings := [], map[], [];
      nextUserId, nextFeedbackId, nextVacancyId, nextTagId, nextMailingId := 1, 1, 1, 1, 1;
      this.times := times;
    }

    /** `create_user`: a new row with the column defaults, unless the email is taken. */
    method CreateUser(form: UserCreate) returns (r: Result<User, CrudError>)
      requires Valid()
      modifies this`users, this`nextUserId
      ensures Valid()
      ensures UserByEmail(old(users), form.email).Some? ==> r == Err(UniqueViolation) && users == old(users)
      ensures UserByEmail(old(users), form.email).None? ==>
                && r == Ok(NewUser(old(nextUserId), form, times))
                && users == old(users) + [r.value]
    {
      if UserByEmail(users, form.email).Some? {
        return Err(UniqueViolation);
      }
      var u := NewUser(nextUserId, form, times);
      AppendUserOk(users, nextUserId, u);
      UserKeysKept(users, users + [u], feedback, nextFeedbackId, applications, vacancies, nextVacancyId,
                   tags, offers, mailings, nextMailingId);
      users := users + [u];
      nextUserId := nextUserId + 1;
      r := Ok(u);
    }

    /**
     * `update_user`: fails with "User not found" for an unknown id, raises
     * before the commit when role_id is falsy, is refused on commit when the
     * new email belongs to another user, and otherwise replaces the row by the
     * merged one.
     */
    method UpdateUser(upd: UserUpdate) returns (r: Result<User, CrudError>)
      requires Valid()
      modifies this`users
      ensures Valid()
      ensures UpdateOutcome(old(users), upd).Err? ==>
                r == Err(UpdateOutcome(old(users), upd).error) && users == old(users)
      ensures UpdateOutcome(old(users), upd).Ok? ==>
                var (i, merged) := UpdateOutcome(old(users), upd).value;
                r == Ok(merged) && users == old(users)[i := merged]
    {
      var outcome := UpdateOutcome(users, upd);
      if outcome.Err? {
        return Err(outcome.error);
      }
      var (i, merged) := outcome.value;
      ReplaceUserOk(users, nextUserId, i, merged);
      UserKeysKept(users, users[i := merged], feedback, nextFeedbackId, applications, vacancies, nextVacancyId,
                   tags, offers, mailings, nextMailingId);
      users := users[i := merged];
      r := Ok(merged);
    }

    /** `create_feedback`: a new row, refused when the sender or the target is not a user. */
    method CreateFeedback(senderId: int, targetId: int, text: string) returns (r: Result<Feedback, CrudError>)
      requires Valid()
      modifies this`feedback, this`nextFeedbackId
      ensures Valid()
      ensures !(IsUserId(users, senderId) && IsUserId(users, targetId)) ==>
                r == Err(ForeignKeyViolation) && feedback == old(feedback)
      ensures IsUserId(users, senderId) && IsUserId(users, targetId) ==>
                && r == Ok(Feedback(old(nextFeedbackId), senderId, targetId, text))
                && feedback == old(feedback) + [r.value]
    {
      if UserById(users, senderId).None? || UserById(users, targetId).None? {
        return Err(ForeignKeyViolation);
      }
      var f := Feedback(nextFeedbackId, senderId, targetId, text);
      AppendFeedbackOk(feedback, nextFeedbackId, users, f);
      feedback := feedback + [f];
      nextFeedbackId := nextFeedbackId + 1;
      r := Ok(f);
    }

    /**
     * `delete_feedback`: removes the row with this id only when the calling
     * user wrote it; otherwise the table is unchanged.
     */
    method DeleteFeedback(userId: int, feedbackId: int)
      requires Valid()
      modifies this`feedback
      ensures Valid()
      ensures feedback == RemoveOwnFeedback(old(feedback), userId, feedbackId)
    {
      RemoveFeedbackOk(feedback, nextFeedbackId, users, userId, feedbackId);
      feedback := RemoveOwnFeedback(feedback, userId, feedbackId);
    }

    /**
     * `create_intern_application`: a new row keyed by the user's id; refused when
     * the user already has one or is not a user.
     */
    method CreateInternApplication(userId: int, form: ApplicationForm) returns (r: Result<InternApplication, CrudError>)
      requires Valid()
      modifies this`applications
      ensures Valid()
      ensures userId in old(applications) ==> r == Err(UniqueViolation) && applications == old(applications)
      ensures userId !in old(applications) && !IsUserId(users, userId) ==>
                r == Err(ForeignKeyViolation) && applications == old(applications)
      ensures userId !in old(applications) && IsUserId(users, userId) ==>
                && r == Ok(NewApplication(userId, form))
                && applications == old(applications)[userId := r.value]
    {
      if userId in applications {
        return Err(UniqueViolation);
      }
      if UserById(users, userId).None? {
        return Err(ForeignKeyViolation);
      }
      var a := NewApplication(userId, form);
      applications := applications[userId := a];
      r := Ok(a);
    }

    /**
     * `update_intern_application`: overwrites the five form fields of the
     * user's application; a user without one makes the source fail.
     */
    method UpdateInternApplication(userId: int, form: ApplicationForm) returns (r: Result<InternApplication, CrudError>)
      requires Valid()
      modifies this`applications
      ensures Valid()
      ensures userId !in old(applications) ==> r == Err(NoApplication) && applications == old(applications)
      ensures userId in old(applications) ==>
                && r == Ok(MergeApplication(old(applications)[userId], form))
                && applications == old(applications)[userId := r.value]
    {
      if userId !in applications {
        return Err(NoApplication);
      }
      var a := MergeApplication(applications[userId], form);
      applications := applications[userId := a];
      r := Ok(a);
    }

    /**
     * The loop of `create_vacancy`: for each requested name, the key of the tag
     * of that name, inserting the tag when there is none yet.
     */
    method ResolveTags(names: seq<string>) returns (ids: seq<int>)
      requires TagsOk(tags, nextTagId)
      modifies this`tags, this`nextTagId
      ensures TagsOk(tags, nextTagId)
      ensures old(tags) <= tags
      ensures |ids| == |names|
      ensures forall j :: 0 <= j < |names| ==> Tag(ids[j], names[j]) in tags
      ensures forall t :: t in tags[|old(tags)|..] ==> t.name in names && TagByName(old(tags), t.name).None?
    {
      ids := [];
      var i := 0;
      while i < |names|
        invariant TagsResolved(old(tags), tags, nextTagId, names, ids, i)
      {
        var found := TagByName(tags, names[i]);
        if found.Some? {
          ReuseTagStep(old(tags), tags, nextTagId, names, ids, i, found.value);
          ids := ids + [found.value.id];
        } else {
          InsertTagStep(old(tags), tags, nextTagId, names, ids, i);
          tags := tags + [Tag(nextTagId, names[i])];
          ids := ids + [nextTagId];
          nextTagId := nextTagId + 1;
        }
        i := i + 1;
      }
      assert names[..i] == names;
    }

    /**
     * `create_vacancy`: for each requested tag name, reuses the tag of that name
     * or inserts a new one, then adds the vacancy, hidden, with the caller as hr.
     */
    method CreateVacancy(form: VacancyForm, hrId: int) returns (v: Vacancy)
      requires Valid() && IsUserId(users, hrId)
      modifies this`tags, this`nextTagId, this`vacancies, this`nextVacancyId
      ensures Valid()
      ensures vacancies == old(vacancies) + [v]
      ensures v == Vacancy(old(nextVacancyId), form.title, form.description, hrId, None,
                           form.startDate, form.endDate, form.test, form.requirements,
                           form.organisation, form.coordinates, form.address, Hidden, v.tagIds)
      ensures |v.tagIds| == |RequestedTagNames(form)|
      ensures forall j :: 0 <= j < |v.tagIds| ==> Tag(v.tagIds[j], RequestedTagNames(form)[j]) in tags
      ensures forall j, k :: 0 <= j < k < |v.tagIds| && RequestedTagNames(form)[j] == RequestedTagNames(form)[k] ==>
                v.tagIds[j] == v.tagIds[k]
      ensures old(tags) <= tags
      ensures forall t :: t in tags[|old(tags)|..] ==> t.name in RequestedTagNames(form) && TagByName(old(tags), t.name).None?
    {
      var names := RequestedTagNames(form);
      var ids := ResolveTags(names);
      forall j, k | 0 <= j < k < |ids| && names[j] == names[k] ensures ids[j] == ids[k] {
        SameNameSameTag(tags, Tag(ids[j], names[j]), Tag(ids[k], names[k]));
      }
      v := Vacancy(nextVacancyId, form.title, form.description, hrId, None,
                   form.startDate, form.endDate, form.test, form.requirements,
                   form.organisation, form.coordinates, form.address, Hidden, ids);
      TagKeysResolve(tags, ids, names);
      AppendVacancyOk(vacancies, nextVacancyId, users, old(tags), tags, v);
      VacanciesGrowKeepOffers(offers, vacancies, vacancies + [v], users);
      vacancies := vacancies + [v];
      nextVacancyId := nextVacancyId + 1;
    }

    /**
     * `delete_vacancy`: removes the vacancy with this key; refused while its tag
     * links or an offer still refer to it. An unknown key deletes nothing.
     */
    method DeleteVacancy(id: int) returns (r: Result<(), CrudError>)
      requires Valid()
      modifies this`vacancies
      ensures Valid()
      ensures (exists v :: v in old(vacancies) && v.id == id && |v.tagIds| > 0) || id in offers ==>
                r == Err(ForeignKeyViolation) && vacancies == old(vacancies)
      ensures !((exists v :: v in old(vacancies) && v.id == id && |v.tagIds| > 0) || id in offers) ==>
                r == Ok(()) && vacancies == RemoveVacancy(old(vacancies), id)
    {
      var linked := FindFirst(vacancies, (v: Vacancy) => v.id == id && |v.tagIds| > 0);
      if linked.Some? || id in offers {
        return Err(ForeignKeyViolation);
      }
      RemoveVacancyOk(vacancies, nextVacancyId, users, tags, offers, id);
      vacancies := RemoveVacancy(vacancies, id);
      r := Ok(());
    }

    /** `create_mailing`: a new row from the sender to the target. */
    method CreateMailing(form: MailingForm, senderId: int, targetId: int) returns (m: Mailing)
      requires Valid() && IsUserId(users, senderId) && IsUserId(users, targetId)
      modifies this`mailings, this`nextMailingId
      ensures Valid()
      ensures m == Mailing(old(nextMailingId), senderId, targetId, form.timeSent, form.subject, form.message)
      ensures mailings == old(mailings) + [m]
    {
      m := Mailing(nextMailingId, senderId, targetId, form.timeSent, form.subject, form.message);
      AppendMailingOk(mailings, nextMailingId, users, m);
      mailings := mailings + [m];
      nextMailingId := nextMailingId + 1;
    }
  }

  // ---------------------------------------------------------------------
  // How each change of a table keeps its constraints
  // ---------------------------------------------------------------------

  /** A new user with the next key and an unused email keeps the user table valid. */
  lemma AppendUserOk(users: seq<User>, next: int, u: User)
    requires UsersOk(users, next) && u.id == next
    requires forall w :: w in users ==> w.email != u.email
    ensures UsersOk(users + [u], next + 1) && KeepsUserKeys(users, users + [u])
  {
    var all := users + [u];
    forall i, j | 0 <= i < j < |all| ensures all[i].id != all[j].id && all[i].email != all[j].email {
      if j == |users| {
        assert all[i] in users;
      } else {
        assert all[i] == users[i] && all[j] == users[j];
      }
    }
    forall id | IsUserId(users, id) ensures IsUserId(all, id) {
      var w :| w in users && w.id == id;
      assert w in all;
    }
  }

  /**
   * Replacing a user by a row with the same key, whose email no other user
   * has, keeps the user table valid and every key.
   */
  lemma ReplaceUserOk(users: seq<User>, next: int, i: nat, u: User)
    requires UsersOk(users, next) && i < |users| && u.id == users[i].id
    requires forall w :: w in users && w.email == u.email ==> w.id == u.id
    ensures UsersOk(users[i := u], next) && KeepsUserKeys(users, users[i := u])
  {
    var all := users[i := u];
    forall a, b | 0 <= a < b < |all| ensures all[a].id != all[b].id && all[a].email != all[b].email {
      if a == i {
        assert users[b] in users;
      } else if b == i {
        assert users[a] in users;
      } else {
        assert all[a] == users[a] && all[b] == users[b];
      }
    }
    forall u' | u' in all ensures u'.id < next {
      var k :| 0 <= k < |all| && all[k] == u';
      assert k == i || all[k] == users[k];
    }
    forall id | IsUserId(users, id) ensures IsUserId(all, id) {
      var w :| w in users && w.id == id;
      var k :| 0 <= k < |users| && users[k] == w;
      assert all[k].id == id;
    }
  }

  /** Every table that refers to users stays valid when no user key is lost. */
  lemma UserKeysKept(before: seq<User>, after: seq<User>,
                     feedback: seq<Feedback>, nextFeedback: int,
                     applications: map<int, InternApplication>,
                     vacancies: seq<Vacancy>, nextVacancy: int, tags: seq<Tag>,
                     offers: map<int, MentorVacancyOffer>,
                     mailings: seq<Mailing>, nextMailing: int)
    requires KeepsUserKeys(before, after)
    requires FeedbackOk(feedback, nextFeedback, before)
    requires ApplicationsOk(applications, before)
    requires VacanciesOk(vacancies, nextVacancy, before, tags)
    requires OffersOk(offers, vacancies, before)
    requires MailingsOk(mailings, nextMailing, before)
    ensures FeedbackOk(feedback, nextFeedback, after)
    ensures ApplicationsOk(applications, after)
    ensures VacanciesOk(vacancies, nextVacancy, after, tags)
    ensures OffersOk(offers, vacancies, after)
    ensures MailingsOk(mailings, nextMailing, after)
  {
  }

  /** A new feedback row with the next key between two users keeps the table valid. */
  lemma AppendFeedbackOk(feedback: seq<Feedback>, next: int, users: seq<User>, f: Feedback)
    requires FeedbackOk(feedback, next, users) && f.id == next
    requires IsUserId(users, f.senderId) && IsUserId(users, f.targetId)
    ensures FeedbackOk(feedback + [f], next + 1, users)
  {
    var all := feedback + [f];
    forall i, j | 0 <= i < j < |all| ensures all[i].id != all[j].id {
      if j == |feedback| {
        assert all[i] in feedback;
      } else {
        assert all[i] == feedback[i] && all[j] == feedback[j];
      }
    }
  }

  /** Deleting feedback keeps the table valid. */
  lemma RemoveFeedbackOk(feedback: seq<Feedback>, next: int, users: seq<User>, userId: int, feedbackId: int)
    requires FeedbackOk(feedback, next, users)
    ensures FeedbackOk(RemoveOwnFeedback(feedback, userId, feedbackId), next, users)
  {
    RemovePreservesUniqueIds(feedback, userId, feedbackId);
  }

  /**
   * A new vacancy with the next key, an existing hr, no mentor and links to
   * existing tags keeps the vacancy table valid, also after the tag table grew.
   */
  lemma AppendVacancyOk(vacancies: seq<Vacancy>, next: int, users: seq<User>,
                        before: seq<Tag>, after: seq<Tag>, v: Vacancy)
    requires VacanciesOk(vacancies, next, users, before) && before <= after
    requires v.id == next && IsUserId(users, v.hrId) && v.mentorId.None?
    requires forall id :: id in v.tagIds ==> exists t :: t in after && t.id == id
    ensures VacanciesOk(vacancies + [v], next + 1, users, after)
  {
    var all := vacancies + [v];
    forall i, j | 0 <= i < j < |all| ensures all[i].id != all[j].id {
      if j == |vacancies| {
        assert all[i] in vacancies;
      } else {
        assert all[i] == vacancies[i] && all[j] == vacancies[j];
      }
    }
    TagsGrowKeepKeys(before, after, vacancies);
  }

  /** Offers keep referring to vacancies when the vacancy table only grows. */
  lemma VacanciesGrowKeepOffers(offers: map<int, MentorVacancyOffer>, before: seq<Vacancy>,
                                after: seq<Vacancy>, users: seq<User>)
    requires OffersOk(offers, before, users) && before <= after
    ensures OffersOk(offers, after, users)
  {
    forall k | k in offers ensures IsVacancyId(after, k) {
      var v :| v in before && v.id == k;
      var i :| 0 <= i < |before| && before[i] == v;
      assert after[i] == v;
    }
  }

  /**
   * Deleting the vacancies with a key that no offer uses keeps the vacancy
   * and offer tables valid.
   */
  lemma RemoveVacancyOk(vacancies: seq<Vacancy>, next: int, users: seq<User>, tags: seq<Tag>,
                        offers: map<int, MentorVacancyOffer>, id: int)
    requires VacanciesOk(vacancies, next, users, tags) && OffersOk(offers, vacancies, users)
    requires id !in offers
    ensures VacanciesOk(RemoveVacancy(vacancies, id), next, users, tags)
    ensures OffersOk(offers, RemoveVacancy(vacancies, id), users)
  {
    RemoveVacancyPreservesUniqueIds(vacancies, id);
    var rest := RemoveVacancy(vacancies, id);
    forall k | k in offers ensures IsVacancyId(rest, k) {
      var v :| v in vacancies && v.id == k;
      assert v in rest;
    }
  }

  /** A new mailing with the next key between two users keeps the table valid. */
  lemma AppendMailingOk(mailings: seq<Mailing>, next: int, users: seq<User>, m: Mailing)
    requires MailingsOk(mailings, next, users) && m.id == next
    requires IsUserId(users, m.senderId) && IsUserId(users, m.targetId)
    ensures MailingsOk(mailings + [m], next + 1, users)
  {
    var all := mailings + [m];
    forall i, j | 0 <= i < j < |all| ensures all[i].id != all[j].id {
      if j == |mailings| {
        assert all[i] in mailings;
      } else {
        assert all[i] == mailings[i] && all[j] == mailings[j];
      }
    }
  }

  /**
   * What the tag loop of `create_vacancy` has established after `i` names:
   * the table only grew and stays valid, the first `i` keys name tags of the
   * requested names, and every inserted tag carries a requested name that
   * the original table did not have.
   */
  ghost predicate TagsResolved(original: seq<Tag>, tags: seq<Tag>, next: int,
                               names: seq<string>, ids: seq<int>, i: int)
  {
    && 0 <= i <= |names| && |ids| == i
    && original <= tags && TagsOk(tags, next)
    && (forall j :: 0 <= j < i ==> Tag(ids[j], names[j]) in tags)
    && (forall t :: t in tags[|original|..] ==> t.name in names[..i] && TagByName(original, t.name).None?)
  }

  /** Reusing the existing tag of the next name keeps the loop's facts. */
  lemma ReuseTagStep(original: seq<Tag>, tags: seq<Tag>, next: int,
                     names: seq<string>, ids: seq<int>, i: int, t: Tag)
    requires TagsResolved(original, tags, next, names, ids, i) && i < |names|
    requires t in tags && t.name == names[i]
    ensures TagsResolved(original, tags, next, names, ids + [t.id], i + 1)
  {
    assert names[..i + 1] == names[..i] + [names[i]];
    var ids' := ids + [t.id];
    forall j | 0 <= j < i + 1 ensures Tag(ids'[j], names[j]) in tags {
      if j < i {
        assert ids'[j] == ids[j];
      }
    }
  }

  /** Inserting a tag for a name the table lacks keeps the loop's facts. */
  lemma InsertTagStep(original: seq<Tag>, tags: seq<Tag>, next: int,
                      names: seq<string>, ids: seq<int>, i: int)
    requires TagsResolved(original, tags, next, names, ids, i) && i < |names|
    requires TagByName(tags, names[i]).None?
    ensures TagsResolved(original, tags + [Tag(next, names[i])], next + 1, names, ids + [next], i + 1)
  {
    var t := Tag(next, names[i]);
    var all := tags + [t];
    forall a, b | 0 <= a < b < |all| ensures all[a].id != all[b].id && all[a].name != all[b].name {
      if b == |tags| {
        assert all[a] in tags;
      } else {
        assert all[a] == tags[a] && all[b] == tags[b];
      }
    }
    assert TagsOk(all, next + 1);
    assert names[..i + 1] == names[..i] + [names[i]];
    var ids' := ids + [next];
    forall j | 0 <= j < i + 1 ensures Tag(ids'[j], names[j]) in all {
      if j < i {
        assert ids'[j] == ids[j] && Tag(ids[j], names[j]) in tags;
      }
    }
    forall u | u in original ensures u.name != names[i] {
      assert u in tags;
    }
    forall u | u in all[|original|..] ensures u.name in names[..i + 1] && TagByName(original, u.name).None? {
      var k :| |original| <= k < |all| && all[k] == u;
      if k < |tags| {
        assert u in tags[|original|..];
      }
    }
  }

  /** Every key the tag loop returned is the key of a tag. */
  lemma TagKeysResolve(tags: seq<Tag>, ids: seq<int>, names: seq<string>)
    requires |ids| == |names|
    requires forall j :: 0 <= j < |names| ==> Tag(ids[j], names[j]) in tags
    ensures forall id :: id in ids ==> exists t :: t in tags && t.id == id
  {
    forall id | id in ids ensures exists t :: t in tags && t.id == id {
      var j :| 0 <= j < |ids| && ids[j] == id;
      assert Tag(ids[j], names[j]) in tags;
    }
  }

  /** A grown tag table still holds every key the existing vacancies link to. */
  lemma TagsGrowKeepKeys(before: seq<Tag>, after: seq<Tag>, vacancies: seq<Vacancy>)
    requires before <= after
    requires forall v, id :: v in vacancies && id in v.tagIds ==> IsTagId(before, id)
    ensures forall v, id :: v in vacancies && id in v.tagIds ==> IsTagId(after, id)
  {
    forall v, id | v in vacancies && id in v.tagIds ensures IsTagId(after, id) {
      assert IsTagId(before, id);
      var t :| t in before && t.id == id;
      var k :| 0 <= k < |before| && before[k] == t;
      assert after[k] == t;
    }
  }

  /** Removing rows keeps the remaining keys unique. */
  lemma {:induction false} RemovePreservesUniqueIds(feedback: seq<Feedback>, userId: int, feedbackId: int)
    requires UniqueFeedbackIds(feedback)
    ensures UniqueFeedbackIds(RemoveOwnFeedback(feedback, userId, feedbackId))
  {
    if feedback != [] {
      var tail := feedback[1..];
      assert UniqueFeedbackIds(tail) by {
        forall i, j | 0 <= i < j < |tail| ensures tail[i].id != tail[j].id {
          assert tail[i] == feedback[i + 1] && tail[j] == feedback[j + 1];
        }
      }
      RemovePreservesUniqueIds(tail, userId, feedbackId);
      var rest := RemoveOwnFeedback(tail, userId, feedbackId);
      if !(feedback[0].id == feedbackId && feedback[0].senderId == userId) {
        forall f | f in rest ensures f.id != feedback[0].id {
          assert f in tail;
          var k :| 0 <= k < |tail| && tail[k] == f;
          assert feedback[k + 1] == f;
        }
        UniqueConsFeedback(feedback[0], rest);
      }
    }
  }

  lemma UniqueConsFeedback(f: Feedback, rest: seq<Feedback>)
    requires UniqueFeedbackIds(rest)
    requires forall g :: g in rest ==> g.id != f.id
    ensures UniqueFeedbackIds([f] + rest)
  {
    var all := [f] + rest;
    forall i, j | 0 <= i < j < |all| ensures all[i].id != all[j].id {
      assert all[j] == rest[j - 1];
      if i > 0 {
        assert all[i] == rest[i - 1];
      }
    }
  }

  lemma {:induction false} RemoveVacancyPreservesUniqueIds(vacancies: seq<Vacancy>, id: int)
    requires UniqueVacancyIds(vacancies)
    ensures UniqueVacancyIds(RemoveVacancy(vacancies, id))
  {
    if vacancies != [] {
      var tail := vacancies[1..];
      assert UniqueVacancyIds(tail) by {
        forall i, j | 0 <= i < j < |tail| ensures tail[i].id != tail[j].id {
          assert tail[i] == vacancies[i + 1] && tail[j] == vacancies[j + 1];
        }
      }
      RemoveVacancyPreservesUniqueIds(tail, id);
      var rest := RemoveVacancy(tail, id);
      if vacancies[0].id != id {
        var all := [vacancies[0]] + rest;
        forall i, j | 0 <= i < j < |all| ensures all[i].id != all[j].id {
          assert all[j] == rest[j - 1] && rest[j - 1] in tail;
          if i == 0 {
            var k :| 0 <= k < |tail| && tail[k] == rest[j - 1];
            assert vacancies[k + 1] == tail[k];
          } else {
            assert all[i] == rest[i - 1];
          }
        }
      }
    }
  }
}
