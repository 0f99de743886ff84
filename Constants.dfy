/**
 * The enumerations of app/data/constants.py: the integer role codes and the
 * two string-valued "received"/"sent" vocabularies.
 */
module Constants {
  import opened Wrappers

  /** UserRole, an `int` enum with one code per role. */
  datatype UserRole = Mentor | Curator | Hr | Candidate | Intern {

    /** The integer code of the role. */
    function Code(): (c: int)
      ensures 0 <= c <= 4
      ensures RoleOfCode(c) == Some(this)
    {
      match this
      case Mentor => 0
      case Curator => 1
      case Hr => 2
      case Candidate => 3
      case Intern => 4
    }

    /** The member name, which is also the text stored in the `role` column of users. */
    function Name(): (s: string)
      ensures RoleOfName(s) == Some(this)
    {
      match this
      case Mentor => "mentor"
      case Curator => "curator"
      case Hr => "hr"
      case Candidate => "candidate"
      case Intern => "intern"
    }
  }

  /** `UserRole(c)`: the role with code `c`, or None where Python raises ValueError. */
  function RoleOfCode(c: int): (r: Option<UserRole>)
    ensures r.Some? <==> 0 <= c <= 4
  {
    if c == 0 then Some(Mentor)
    else if c == 1 then Some(Curator)
    else if c == 2 then Some(Hr)
    else if c == 3 then Some(Candidate)
    else if c == 4 then Some(Intern)
    else None
  }

  /** The role whose member name is `s`, if any. */
  function RoleOfName(s: string): (r: Option<UserRole>)
    ensures r.Some? <==> s in {"mentor", "curator", "hr", "candidate", "intern"}
  {
    if s == "mentor" then Some(Mentor)
    else if s == "curator" then Some(Curator)
    else if s == "hr" then Some(Hr)
    else if s == "candidate" then Some(Candidate)
    else if s == "intern" then Some(Intern)
    else None
  }

  /** Every code in 0..4 names a role whose code it is: the enum is a bijection onto 0..4. */
  lemma RoleCodeRoundTrip(c: int)
    requires 0 <= c <= 4
    ensures RoleOfCode(c).Some? && RoleOfCode(c).value.Code() == c
  {
  }

  /** No two roles share a code. */
  lemma RoleCodesDistinct(a: UserRole, b: UserRole)
    requires a != b
    ensures a.Code() != b.Code()
  {
    assert RoleOfCode(a.Code()) == Some(a);
    assert RoleOfCode(b.Code()) == Some(b);
  }

  /** FeedbackType, a `str` enum. */
  datatype FeedbackType = ReceivedFeedback | SentFeedback {
    function Value(): (s: string)
      ensures FeedbackTypeOf(s) == Some(this)
    {
      match this
      case ReceivedFeedback => "received"
      case SentFeedback => "sent"
    }
  }

  /** `FeedbackType(s)`: exactly "received" and "sent" are members. */
  function FeedbackTypeOf(s: string): (r: Option<FeedbackType>)
    ensures r.Some? <==> s == "received" || s == "sent"
  {
    if s == "received" then Some(ReceivedFeedback)
    else if s == "sent" then Some(SentFeedback)
    else None
  }

  /** MailingType, a `str` enum with the same two values as FeedbackType. */
  datatype MailingType = ReceivedMailing | SentMailing {
    function Value(): (s: string)
      ensures MailingTypeOf(s) == Some(this)
    {
      match this
      case ReceivedMailing => "received"
      case SentMailing => "sent"
    }
  }

  /** `MailingType(s)`: exactly "received" and "sent" are members. */
  function MailingTypeOf(s: string): (r: Option<MailingType>)
    ensures r.Some? <==> s == "received" || s == "sent"
  {
    if s == "received" then Some(ReceivedMailing)
    else if s == "sent" then Some(SentMailing)
    else None
  }
}
