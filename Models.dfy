/**
 * The entity records of app/data/models.py that the crud layer reads and
 * writes: users, feedback, intern applications, vacancies with their tag
 * links, tags, mentor offers and mailings, with the status vocabularies and
 * the column defaults.
 */
module Models {
  import opened Wrappers
  import opened Constants

  /** A calendar date; only the year takes part in any rule of the model. */
  datatype Date = Date(year: int, month: int, day: int)

  /** A point in time (DateTime columns), as an opaque count of seconds. */
  type Timestamp = int

  /** The status text of a vacancy; `hidden` is the column default. */
  datatype VacancyStatus = Hidden | Pending | Accepted | Published | Closed {
    function Name(): (s: string)
      ensures VacancyStatusOf(s) == Some(this)
    {
      match this
      case Hidden => "hidden"
      case Pending => "pending"
      case Accepted => "accepted"
      case Published => "published"
      case Closed => "closed"
    }
  }

  function VacancyStatusOf(s: string): (r: Option<VacancyStatus>)
    ensures r.Some? <==> s in {"hidden", "pending", "accepted", "published", "closed"}
  {
    if s == "hidden" then Some(Hidden)
    else if s == "pending" then Some(Pending)
    else if s == "accepted" then Some(Accepted)
    else if s == "published" then Some(Published)
    else if s == "closed" then Some(Closed)
    else None
  }

  /** The status text of an intern application. */
  datatype ApplicationStatus = Unverified | Verified | Approved | Declined {
    function Name(): (s: string)
      ensures ApplicationStatusOf(s) == Some(this)
    {
      match this
      case Unverified => "unverified"
      case Verified => "verified"
      case Approved => "approved"
      case Declined => "declined"
    }
  }

  function ApplicationStatusOf(s: string): (r: Option<ApplicationStatus>)
    ensures r.Some? <==> s in {"unverified", "verified", "approved", "declined"}
  {
    if s == "unverified" then Some(Unverified)
    else if s == "verified" then Some(Verified)
    else if s == "approved" then Some(Approved)
    else if s == "declined" then Some(Declined)
    else None
  }

  /** The `mentor_status` of an offer; only the default, `pending`, is ever written. */
  datatype OfferStatus = OfferPending | OfferActive | OfferDeclined {
    function Name(): (s: string)
      ensures OfferStatusOf(s) == Some(this)
    {
      match this
      case OfferPending => "pending"
      case OfferActive => "active"
      case OfferDeclined => "declined"
    }
  }

  function OfferStatusOf(s: string): (r: Option<OfferStatus>)
    ensures r.Some? <==> s in {"pending", "active", "declined"}
  {
    if s == "pending" then Some(OfferPending)
    else if s == "active" then Some(OfferActive)
    else if s == "declined" then Some(OfferDeclined)
    else None
  }

  /** A row of `users`. `email` is unique; the table has no `role_id` column. */
  datatype User = User(
    id: int,
    email: string,
    hashedPassword: string,
    policyAgreed: bool,
    phone: Option<string>,
    fio: string,
    birthday: Date,
    gender: Option<string>,
    role: UserRole,
    firstAccess: Timestamp,
    lastAccess: Timestamp,
    lastIp: string,
    active: bool,
    vk: Option<string>,
    telegram: Option<string>)

  /** A row of `feedback`: a text that `senderId` wrote about `targetId`. */
  datatype Feedback = Feedback(id: int, senderId: int, targetId: int, text: string)

  /**
   * A row of `intern_applications`. Its key `id` is the owning user's id, so a
   * user has at most one application. `status` and `city` are nullable.
   */
  datatype InternApplication = InternApplication(
    id: int,
    course: string,
    education: string,
    resume: string,
    citizenship: string,
    graduationDate: Date,
    status: Option<ApplicationStatus>,
    city: Option<string>)

  /**
   * A row of `vacancies` together with its links in `vacancy_tags`, in the
   * order they were appended. `hrId` is required, `mentorId` nullable;
   * `address` is "city,street,house"; `requirements` is the JSON text.
   */
  datatype Vacancy = Vacancy(
    id: int,
    title: string,
    description: string,
    hrId: int,
    mentorId: Option<int>,
    startDate: Timestamp,
    endDate: Timestamp,
    test: string,
    requirements: string,
    organisation: string,
    coordinates: string,
    address: string,
    status: VacancyStatus,
    tagIds: seq<int>)

  /** A row of `tags`; `name` is unique. */
  datatype Tag = Tag(id: int, name: string)

  /** A row of `mentor_vacancy_offers`, keyed by the vacancy it is for. */
  datatype MentorVacancyOffer = MentorVacancyOffer(
    vacancyId: int,
    mentorId: int,
    createdAt: Timestamp,
    mentorStatus: OfferStatus)

  /** A row of `mailings`. */
  datatype Mailing = Mailing(
    id: int,
    senderId: int,
    targetId: int,
    timeSent: Timestamp,
    subject: string,
    message: string)

  /** The fields a new user is created from (the hashed registration form). */
  datatype UserCreate = UserCreate(
    email: string,
    phone: Option<string>,
    fio: string,
    gender: string,
    birthday: Date,
    hashedPassword: string)

  /**
   * The values of the three `datetime.datetime.now()` column defaults. Each
   * call ran once, when the model module was imported, so every row created
   * in one run gets the same value for a column; the three calls are separate,
   * so the columns may differ from each other.
   */
  datatype ImportTimes = ImportTimes(firstAccess: Timestamp, lastAccess: Timestamp, offerCreatedAt: Timestamp)

  /** A user row built from the form with every column default applied. */
  function NewUser(id: int, form: UserCreate, times: ImportTimes): (u: User)
    ensures u.id == id && u.email == form.email && u.hashedPassword == form.hashedPassword
    ensures u.phone == form.phone && u.fio == form.fio && u.birthday == form.birthday
    ensures u.gender == Some(form.gender)
    ensures u.role == Candidate
    ensures u.active && u.policyAgreed
    ensures u.lastIp == "127.0.0.1"
    ensures u.firstAccess == times.firstAccess && u.lastAccess == times.lastAccess
    ensures u.vk == None && u.telegram == None
  {
    User(id, form.email, form.hashedPassword, true, form.phone, form.fio, form.birthday,
         Some(form.gender), Candidate, times.firstAccess, times.lastAccess, "127.0.0.1", true, None, None)
  }

  /** An offer of `vacancyId` to `mentorId` as the column defaults create it. */
  function NewOffer(vacancyId: int, mentorId: int, times: ImportTimes): (o: MentorVacancyOffer)
    ensures o.vacancyId == vacancyId && o.mentorId == mentorId
    ensures o.mentorStatus == OfferPending && o.createdAt == times.offerCreatedAt
  {
    MentorVacancyOffer(vacancyId, mentorId, times.offerCreatedAt, OfferPending)
  }
}
