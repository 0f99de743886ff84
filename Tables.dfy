/**
 * The read side of app/data/crud.py as functions over table contents: lookups
 * by key, offset/limit paging, the owner-filtered feedback and mailing
 * listings, and the vacancy listing with its tag/organisation/city filter.
 * A table is the sequence of its rows in insertion order, which stands for
 * the unspecified order of a query without ORDER BY.
 */
module Tables {
  import opened Wrappers
  import opened Models

  function Min(a: int, b: int): int
  {
    if a <= b then a else b
  }

  // ---------------------------------------------------------------------
  // Table invariants
  // ---------------------------------------------------------------------

  predicate UniqueUserIds(users: seq<User>)
  {
    forall i, j :: 0 <= i < j < |users| ==> users[i].id != users[j].id
  }

  /** The `unique=True` constraint on users.email. */
  predicate UniqueEmails(users: seq<User>)
  {
    forall i, j :: 0 <= i < j < |users| ==> users[i].email != users[j].email
  }

  predicate UniqueFeedbackIds(feedback: seq<Feedback>)
  {
    forall i, j :: 0 <= i < j < |feedback| ==> feedback[i].id != feedback[j].id
  }

  predicate UniqueVacancyIds(vacancies: seq<Vacancy>)
  {
    forall i, j :: 0 <= i < j < |vacancies| ==> vacancies[i].id != vacancies[j].id
  }

  predicate UniqueTagIds(tags: seq<Tag>)
  {
    forall i, j :: 0 <= i < j < |tags| ==> tags[i].id != tags[j].id
  }

  /** The `unique=True` constraint on tags.name. */
  predicate UniqueTagNames(tags: seq<Tag>)
  {
    forall i, j :: 0 <= i < j < |tags| ==> tags[i].name != tags[j].name
  }

  predicate UniqueMailingIds(mailings: seq<Mailing>)
  {
    forall i, j :: 0 <= i < j < |mailings| ==> mailings[i].id != mailings[j].id
  }

  predicate IsUserId(users: seq<User>, id: int)
  {
    exists u :: u in users && u.id == id
  }

  // ---------------------------------------------------------------------
  // Lookups (`.filter(...).one_or_none()`)
  // ---------------------------------------------------------------------

  /** The first row that `keep` accepts, if any. */
  function FindFirst<T>(rows: seq<T>, keep: T -> bool): (r: Option<T>)
    ensures r.Some? ==> r.value in rows && keep(r.value)
    ensures r.None? ==> forall x :: x in rows ==> !keep(x)
  {
    if rows == [] then None
    else if keep(rows[0]) then Some(rows[0])
    else FindFirst(rows[1..], keep)
  }

  /** When exactly one row is accepted, the lookup finds that row. */
  lemma {:induction false} FindFirstFindsTheOnly<T>(rows: seq<T>, keep: T -> bool, i: nat)
    requires i < |rows| && keep(rows[i])
    requires forall j :: 0 <= j < |rows| && j != i ==> !keep(rows[j])
    ensures FindFirst(rows, keep) == Some(rows[i])
  {
    if i > 0 {
      assert !keep(rows[0]);
      forall j | 0 <= j < |rows[1..]| && j != i - 1
        ensures !keep(rows[1..][j])
      {
        assert rows[1..][j] == rows[j + 1];
      }
      FindFirstFindsTheOnly(rows[1..], keep, i - 1);
    }
  }

  /** `get_user`: the user with primary key `id`. */
  function UserById(users: seq<User>, id: int): (r: Option<User>)
    ensures r.Some? ==> r.value in users && r.value.id == id
    ensures r.None? <==> !IsUserId(users, id)
  {
    FindFirst(users, (u: User) => u.id == id)
  }

  /** `get_user_by_email`: the user whose email is `email`. */
  function UserByEmail(users: seq<User>, email: string): (r: Option<User>)
    ensures r.Some? ==> r.value in users && r.value.email == email
    ensures r.None? ==> forall u :: u in users ==> u.email != email
  {
    FindFirst(users, (u: User) => u.email == email)
  }

  /** With unique emails, looking a user up by their own email finds exactly them. */
  lemma UserByEmailFindsOwner(users: seq<User>, i: nat)
    requires UniqueEmails(users) && i < |users|
    ensures UserByEmail(users, users[i].email) == Some(users[i])
  {
    var email := users[i].email;
    FindFirstFindsTheOnly(users, (u: User) => u.email == email, i);
  }

  /** The tag called `name` (the lookup `create_vacancy` does for each tag). */
  function TagByName(tags: seq<Tag>, name: string): (r: Option<Tag>)
    ensures r.Some? ==> r.value in tags && r.value.name == name
    ensures r.None? <==> forall t :: t in tags ==> t.name != name
  {
    FindFirst(tags, (t: Tag) => t.name == name)
  }

  /**
   * The tag with primary key `id` (the lookup the vacancy-tag association
   * resolves for each link row; `TagByName` is the lookup by unique name).
   */
  function TagById(tags: seq<Tag>, id: int): (r: Option<Tag>)
    ensures r.Some? ==> r.value in tags && r.value.id == id
    ensures r.None? <==> forall t :: t in tags ==> t.id != id
  {
    FindFirst(tags, (t: Tag) => t.id == id)
  }

  /** With unique tag ids, a tag's id leads back to that tag. */
  lemma TagByIdFindsTag(tags: seq<Tag>, i: nat)
    requires UniqueTagIds(tags) && i < |tags|
    ensures TagById(tags, tags[i].id) == Some(tags[i])
  {
    var id := tags[i].id;
    FindFirstFindsTheOnly(tags, (t: Tag) => t.id == id, i);
  }

  // ---------------------------------------------------------------------
  // Paging (`.offset(offset).limit(limit)`)
  // ---------------------------------------------------------------------

  /** At most `limit` rows, starting at position `offset`. */
  function Page<T>(rows: seq<T>, offset: nat, limit: nat): (r: seq<T>)
    ensures |r| == if offset >= |rows| then 0 else Min(limit, |rows| - offset)
    ensures forall i :: 0 <= i < |r| ==> r[i] == rows[offset + i]
  {
    if offset >= |rows| then [] else rows[offset..offset + Min(limit, |rows| - offset)]
  }

  /** Two consecutive pages make up the page that spans both. */
  lemma PagesConcatenate<T>(rows: seq<T>, offset: nat, a: nat, b: nat)
    ensures Page(rows, offset, a) + Page(rows, offset + a, b) == Page(rows, offset, a + b)
  {
    var left, right, whole := Page(rows, offset, a), Page(rows, offset + a, b), Page(rows, offset, a + b);
    assert |left + right| == |whole|;
    forall i | 0 <= i < |whole|
      ensures (left + right)[i] == whole[i]
    {
      if i >= |left| {
        assert (left + right)[i] == right[i - |left|];
      }
    }
  }

  /** A page from offset 0 that is at least as long as the table is the table. */
  lemma FirstPageIsTable<T>(rows: seq<T>, limit: nat)
    requires limit >= |rows|
    ensures Page(rows, 0, limit) == rows
  {
  }

  /** The rows `keep` accepts, in table order (`.filter(...)`). */
  function Select<T(!new)>(rows: seq<T>, keep: T -> bool): (r: seq<T>)
    ensures |r| <= |rows|
    ensures forall x :: x in r <==> x in rows && keep(x)
  {
    if rows == [] then []
    else
      var rest := Select(rows[1..], keep);
      if keep(rows[0]) then [rows[0]] + rest else rest
  }

  /**
   * Selection keeps the table order: selecting from two tables one after the
   * other is selecting from each. With `SelectOne` this determines `Select`.
   */
  lemma {:induction false} SelectAppend<T(!new)>(a: seq<T>, b: seq<T>, keep: T -> bool)
    ensures Select(a + b, keep) == Select(a, keep) + Select(b, keep)
  {
    if a == [] {
      assert a + b == b;
    } else {
      assert (a + b)[0] == a[0] && (a + b)[1..] == a[1..] + b;
      SelectAppend(a[1..], b, keep);
      if keep(a[0]) {
        assert Select(a + b, keep) == [a[0]] + (Select(a[1..], keep) + Select(b, keep));
      }
    }
  }

  /** A single row is selected exactly when `keep` accepts it. */
  lemma SelectOne<T(!new)>(x: T, keep: T -> bool)
    ensures Select([x], keep) == if keep(x) then [x] else []
  {
    assert [x][1..] == [];
  }

  /** A filter that accepts every row selects the whole table. */
  lemma {:induction false} SelectAll<T(!new)>(rows: seq<T>, keep: T -> bool)
    requires forall x :: x in rows ==> keep(x)
    ensures Select(rows, keep) == rows
  {
    if rows != [] {
      assert rows[0] in rows;
      forall x | x in rows[1..] ensures keep(x) {
        assert x in rows;
      }
      SelectAll(rows[1..], keep);
      assert rows == [rows[0]] + rows[1..];
    }
  }

  /**
   * A page of the accepted rows (`.filter(...).offset(...).limit(...)`): at
   * most `limit` of them, the first being the accepted row at position
   * `offset`, in table order.
   */
  function PageWhere<T(!new)>(rows: seq<T>, keep: T -> bool, offset: nat, limit: nat): (r: seq<T>)
    ensures var kept := Select(rows, keep);
      && |r| == (if offset >= |kept| then 0 else Min(limit, |kept| - offset))
      && forall i :: 0 <= i < |r| ==> r[i] == kept[offset + i]
    ensures forall x :: x in r ==> x in rows && keep(x)
    ensures offset == 0 && limit >= |rows| ==> r == Select(rows, keep)
  {
    Page(Select(rows, keep), offset, limit)
  }

  /** Two consecutive pages of accepted rows make up the page that spans both. */
  lemma PageWhereConcatenates<T(!new)>(rows: seq<T>, keep: T -> bool, offset: nat, a: nat, b: nat)
    ensures PageWhere(rows, keep, offset, a) + PageWhere(rows, keep, offset + a, b) == PageWhere(rows, keep, offset, a + b)
  {
    PagesConcatenate(Select(rows, keep), offset, a, b);
  }

  /** The feedback addressed to `userId`. */
  function ReceivedBy(userId: int): Feedback -> bool
  {
    (f: Feedback) => f.targetId == userId
  }

  /** The feedback written by `userId`. */
  function SentBy(userId: int): Feedback -> bool
  {
    (f: Feedback) => f.senderId == userId
  }

  /** The mailings sent by `userId`. */
  function MailedBy(userId: int): Mailing -> bool
  {
    (m: Mailing) => m.senderId == userId
  }

  /** The mailings addressed to `userId`. */
  function MailedTo(userId: int): Mailing -> bool
  {
    (m: Mailing) => m.targetId == userId
  }

  /** `get_user_received_feedbacks`: a page of the feedback addressed to `userId`. */
  function ReceivedFeedbacks(feedback: seq<Feedback>, userId: int, limit: nat, offset: nat): (r: seq<Feedback>)
    ensures var kept := Select(feedback, ReceivedBy(userId));
      && |r| == (if offset >= |kept| then 0 else Min(limit, |kept| - offset))
      && forall i :: 0 <= i < |r| ==> r[i] == kept[offset + i]
    ensures forall f :: f in r ==> f in feedback && f.targetId == userId
    ensures offset == 0 && limit >= |feedback| ==>
              forall f :: f in feedback && f.targetId == userId ==> f in r
  {
    PageWhere(feedback, ReceivedBy(userId), offset, limit)
  }

  /** `get_user_sent_feedbacks`: a page of the feedback written by `userId`. */
  function SentFeedbacks(feedback: seq<Feedback>, userId: int, limit: nat, offset: nat): (r: seq<Feedback>)
    ensures var kept := Select(feedback, SentBy(userId));
      && |r| == (if offset >= |kept| then 0 else Min(limit, |kept| - offset))
      && forall i :: 0 <= i < |r| ==> r[i] == kept[offset + i]
    ensures forall f :: f in r ==> f in feedback && f.senderId == userId
    ensures offset == 0 && limit >= |feedback| ==>
              forall f :: f in feedback && f.senderId == userId ==> f in r
  {
    PageWhere(feedback, SentBy(userId), offset, limit)
  }

  /** `get_sent_mailings`: a page of the mailings sent by `userId`. */
  function SentMailings(mailings: seq<Mailing>, userId: int, limit: nat, offset: nat): (r: seq<Mailing>)
    ensures var kept := Select(mailings, MailedBy(userId));
      && |r| == (if offset >= |kept| then 0 else Min(limit, |kept| - offset))
      && forall i :: 0 <= i < |r| ==> r[i] == kept[offset + i]
    ensures forall m :: m in r ==> m in mailings && m.senderId == userId
    ensures offset == 0 && limit >= |mailings| ==>
              forall m :: m in mailings && m.senderId == userId ==> m in r
  {
    PageWhere(mailings, MailedBy(userId), offset, limit)
  }

  /** `get_recieved_mailings`: a page of the mailings addressed to `userId`. */
  function ReceivedMailings(mailings: seq<Mailing>, userId: int, limit: nat, offset: nat): (r: seq<Mailing>)
    ensures var kept := Select(mailings, MailedTo(userId));
      && |r| == (if offset >= |kept| then 0 else Min(limit, |kept| - offset))
      && forall i :: 0 <= i < |r| ==> r[i] == kept[offset + i]
    ensures forall m :: m in r ==> m in mailings && m.targetId == userId
    ensures offset == 0 && limit >= |mailings| ==>
              forall m :: m in mailings && m.targetId == userId ==> m in r
  {
    PageWhere(mailings, MailedTo(userId), offset, limit)
  }

  /** The first components of pairs, in order. */
  function Firsts<A, B>(pairs: seq<(A, B)>): seq<A>
  {
    seq(|pairs|, i requires 0 <= i < |pairs| => pairs[i].0)
  }

  /** `get_intern_application`: the application keyed by the user's id. */
  function ApplicationOf(applications: map<int, InternApplication>, userId: int): (r: Option<InternApplication>)
    ensures r.Some? <==> userId in applications
    ensures r.Some? ==> r.value == applications[userId]
  {
    if userId in applications then Some(applications[userId]) else None
  }
}
