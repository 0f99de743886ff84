/**
 * The automatic screening of an intern application
 * (app/service/verify_intern_application.py): citizenship, age and
 * graduation year decide between "verified" and "unverified", and the
 * decision is written onto the application in place. The current year, read
 * from the clock in the source, is a parameter.
 */
module Eligibility {
  import opened Wrappers
  import opened Models

  /** The ISO 3166-1 alpha-2 code an applicant's citizenship must equal. */
  const RequiredCitizenship: string := "RU"
  const MinAge: int := 18
  const MaxAge: int := 35
  /** How many years after the current year graduation may still lie. */
  const MaxYearsToGraduation: int := 1

  /** Age as a plain difference of years; month and day play no part. */
  function AgeInYears(birthday: Date, currentYear: int): int
  {
    currentYear - birthday.year
  }

  predicate CitizenshipOk(citizenship: string)
  {
    citizenship == RequiredCitizenship
  }

  predicate AgeOk(birthday: Date, currentYear: int)
  {
    MinAge <= AgeInYears(birthday, currentYear) <= MaxAge
  }

  predicate GraduationOk(graduation: Date, currentYear: int)
  {
    graduation.year - currentYear <= MaxYearsToGraduation
  }

  /** The decision: "verified" when all three rules hold, "unverified" otherwise. */
  function Decide(citizenship: string, birthday: Date, graduation: Date, currentYear: int): (s: ApplicationStatus)
    ensures s == Verified || s == Unverified
    ensures s == Verified <==>
              && citizenship == "RU"
              && currentYear - 35 <= birthday.year <= currentYear - 18
              && graduation.year <= currentYear + 1
  {
    if CitizenshipOk(citizenship) && AgeOk(birthday, currentYear) && GraduationOk(graduation, currentYear)
    then Verified
    else Unverified
  }

  /** Any citizenship other than exactly "RU" is unverified, whatever the dates. */
  lemma ForeignCitizenUnverified(citizenship: string, birthday: Date, graduation: Date, currentYear: int)
    requires citizenship != "RU"
    ensures Decide(citizenship, birthday, graduation, currentYear) == Unverified
  {
  }

  /** The age bounds are inclusive: 18 and 35 pass, 17 and 36 fail. */
  lemma AgeBoundaries(citizenship: string, graduation: Date, currentYear: int, month: int, day: int)
    requires citizenship == "RU" && graduation.year <= currentYear + 1
    ensures Decide(citizenship, Date(currentYear - 18, month, day), graduation, currentYear) == Verified
    ensures Decide(citizenship, Date(currentYear - 35, month, day), graduation, currentYear) == Verified
    ensures Decide(citizenship, Date(currentYear - 17, month, day), graduation, currentYear) == Unverified
    ensures Decide(citizenship, Date(currentYear - 36, month, day), graduation, currentYear) == Unverified
  {
  }

  /** Graduation passes up to next year; any past year passes, two years ahead fails. */
  lemma GraduationBoundaries(birthday: Date, graduation: Date, currentYear: int)
    requires currentYear - 35 <= birthday.year <= currentYear - 18
    ensures graduation.year <= currentYear ==> Decide("RU", birthday, graduation, currentYear) == Verified
    ensures graduation.year == currentYear + 1 ==> Decide("RU", birthday, graduation, currentYear) == Verified
    ensures graduation.year >= currentYear + 2 ==> Decide("RU", birthday, graduation, currentYear) == Unverified
  {
  }

  /** Months and days of both dates never change the decision. */
  lemma OnlyYearsMatter(citizenship: string, b1: Date, b2: Date, g1: Date, g2: Date, currentYear: int)
    requires b1.year == b2.year && g1.year == g2.year
    ensures Decide(citizenship, b1, g1, currentYear) == Decide(citizenship, b2, g2, currentYear)
  {
  }

  /**
   * The application object `verify` receives and mutates. Its fields are those
   * of an intern application row, `status` included.
   */
  class ApplicationRecord {
    var id: int
    var course: string
    var education: string
    var resume: string
    var citizenship: string
    var graduationDate: Date
    var status: Option<ApplicationStatus>
    var city: Option<string>

    constructor (row: InternApplication)
      ensures Snapshot() == row
    {
      id, course, education, resume := row.id, row.course, row.education, row.resume;
      citizenship, graduationDate, status, city := row.citizenship, row.graduationDate, row.status, row.city;
    }

    /** The record's current field values as a row. */
    function Snapshot(): InternApplication
      reads this
    {
      InternApplication(id, course, education, resume, citizenship, graduationDate, status, city)
    }
  }

  /**
   * `verify`: stamps the decision onto the application's status and returns
   * the same object; every other field is left as it was.
   */
  method Verify(application: ApplicationRecord, user: User, currentYear: int) returns (r: ApplicationRecord)
    modifies application
    ensures r == application
    ensures application.Snapshot() ==
              old(application.Snapshot()).(status := Some(Decide(old(application.citizenship), user.birthday,
                                                                 old(application.graduationDate), currentYear)))
    ensures application.status == Some(Verified) || application.status == Some(Unverified)
  {
    var verification := CitizenshipOk(application.citizenship)
                        && AgeOk(user.birthday, currentYear)
                        && GraduationOk(application.graduationDate, currentYear);
    application.status := if verification then Some(Verified) else Some(Unverified);
    r := application;
  }
}
