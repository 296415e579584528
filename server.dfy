/** The signup handler of the chat server: field validation in a fixed order, a
    duplicate-email scan over the in-memory user list, and an append that hands
    out the new list length as the user id. */
module Server {
  import opened PyStr

  datatype Option<T> = None | Some(value: T)

  /** The JSON body of a signup request. */
  datatype SignupData = SignupData(name: string, email: string, password: string, confirmPassword: string)

  /** One stored user record, `{"name", "email", "password"}` (the password is kept as given). */
  datatype User = User(name: string, email: string, password: string)

  /** The reasons a signup is refused, one per check. */
  datatype SignupError = NameRequired | EmailRequired | PasswordTooShort | PasswordsDontMatch | EmailExists

  /** What the handler answers: the success body, or an HTTP error with its detail. */
  datatype Response =
    | Created(message: string, userId: nat)
    | Rejected(status: nat, detail: string)

  /** The store after a signup together with the answer. */
  datatype Outcome = Outcome(response: Response, users: seq<User>)

  const BadRequest: nat := 400
  const MinPasswordLength: nat := 8
  const CreatedMessage: string := "User created successfully"

  /** The `detail` text the handler sends for each refusal. */
  function Detail(e: SignupError): string
  {
    match e
    case NameRequired => "Name is required"
    case EmailRequired => "Email is required"
    case PasswordTooShort => "Password must have 8 characters"
    case PasswordsDontMatch => "Passwords don't match"
    case EmailExists => "Email already exists"
  }

  /** The position of each check in the order the handler runs them. */
  function Rank(e: SignupError): nat
  {
    match e
    case NameRequired => 0
    case EmailRequired => 1
    case PasswordTooShort => 2
    case PasswordsDontMatch => 3
    case EmailExists => 4
  }

  /** Some stored user has exactly this email (no trimming, no case folding). */
  predicate Registered(users: seq<User>, email: string)
  {
    exists i :: 0 <= i < |users| && users[i].email == email
  }

  /** The condition under which check `e`, taken on its own, refuses `d`. */
  predicate Fails(users: seq<User>, d: SignupData, e: SignupError)
  {
    match e
    case NameRequired => AllWhitespace(d.name)
    case EmailRequired => AllWhitespace(d.email)
    case PasswordTooShort => |d.password| < MinPasswordLength
    case PasswordsDontMatch => d.password != d.confirmPassword
    case EmailExists => Registered(users, d.email)
  }

  /** No two stored users share an email. */
  predicate EmailsDistinct(users: seq<User>)
  {
    forall i, j :: 0 <= i < j < |users| ==> users[i].email != users[j].email
  }

  /** The four checks on the request fields alone, in the handler's order. */
  function Validate(d: SignupData): (r: Option<SignupError>)
    ensures r == Some(NameRequired) <==> AllWhitespace(d.name)
    ensures r == Some(EmailRequired) <==> !AllWhitespace(d.name) && AllWhitespace(d.email)
    ensures r == Some(PasswordTooShort) <==>
      !AllWhitespace(d.name) && !AllWhitespace(d.email) && |d.password| < MinPasswordLength
    ensures r == Some(PasswordsDontMatch) <==>
      !AllWhitespace(d.name) && !AllWhitespace(d.email) && |d.password| >= MinPasswordLength &&
      d.password != d.confirmPassword
    ensures r == None <==>
      !AllWhitespace(d.name) && !AllWhitespace(d.email) && |d.password| >= MinPasswordLength &&
      d.password == d.confirmPassword
    ensures r != Some(EmailExists)
  {
    StripEmptyIff(d.name);
    StripEmptyIff(d.email);
    if Strip(d.name) == [] then Some(NameRequired)
    else if Strip(d.email) == [] then Some(EmailRequired)
    else if |d.password| < MinPasswordLength then Some(PasswordTooShort)
    else if d.password != d.confirmPassword then Some(PasswordsDontMatch)
    else None
  }

  /** All five checks in the handler's order: the error reported is one whose
      check refuses the request, and there is none exactly when every check passes
      (`CheckReportsFirstFailure` says it is the first refusing check). */
  function Check(users: seq<User>, d: SignupData): (r: Option<SignupError>)
    ensures r.Some? ==> Fails(users, d, r.value)
    ensures r.None? <==>
      !AllWhitespace(d.name) && !AllWhitespace(d.email) && |d.password| >= MinPasswordLength &&
      d.password == d.confirmPassword && !Registered(users, d.email)
  {
    match Validate(d)
    case Some(e) => Some(e)
    case None => if Registered(users, d.email) then Some(EmailExists) else None
  }

  /** Every check that runs before the reported one passes. */
  lemma CheckReportsFirstFailure(users: seq<User>, d: SignupData, e: SignupError)
    requires Check(users, d).Some? && Rank(e) < Rank(Check(users, d).value)
    ensures !Fails(users, d, e)
  {
  }

  /** The record the handler appends for an accepted request. */
  function NewUser(d: SignupData): User
  {
    User(d.name, d.email, d.password)
  }

  /** The whole effect of one signup on the store, and the answer. */
  function SignupResult(users: seq<User>, d: SignupData): Outcome
  {
    match Check(users, d)
    case Some(e) => Outcome(Rejected(BadRequest, Detail(e)), users)
    case None =>
      var users' := users + [NewUser(d)];
      Outcome(Created(CreatedMessage, |users'|), users')
  }

  /** A refused signup answers 400 with the detail of the check that refused it and
      leaves the store as it was; an accepted one appends exactly the new record,
      keeps every earlier record in place and answers with the new length. */
  lemma SignupEffect(users: seq<User>, d: SignupData)
    ensures var o := SignupResult(users, d);
      o.response.Rejected? <==> Check(users, d).Some?
    ensures var o := SignupResult(users, d);
      o.response.Rejected? ==>
        o.users == users && o.response.status == BadRequest &&
        o.response.detail == Detail(Check(users, d).value)
    ensures var o := SignupResult(users, d);
      o.response.Created? ==>
        |o.users| == |users| + 1 && o.users[..|users|] == users &&
        o.users[|users|] == User(d.name, d.email, d.password) &&
        o.response.userId == |o.users| && o.response.message == CreatedMessage
  {
  }

  /** A password of exactly eight characters passes the length check. */
  lemma EightCharactersSuffice(d: SignupData)
    requires |d.password| == MinPasswordLength
    ensures Validate(d) != Some(PasswordTooShort)
  {
  }

  /** Each signup keeps stored emails pairwise distinct. */
  lemma SignupKeepsEmailsDistinct(users: seq<User>, d: SignupData)
    requires EmailsDistinct(users)
    ensures EmailsDistinct(SignupResult(users, d).users)
  {
  }

  /** Submitting the same request again right after it was accepted is refused
      with "Email already exists". */
  lemma RepeatSignupRefused(users: seq<User>, d: SignupData)
    requires SignupResult(users, d).response.Created?
    ensures SignupResult(SignupResult(users, d).users, d).response == Rejected(BadRequest, "Email already exists")
  {
    var users' := SignupResult(users, d).users;
    assert Check(users, d).None?;
    assert users'[|users|].email == d.email;
    assert Registered(users', d.email);
  }

  /** A series of signups handled one after another, starting from `users`: the final
      store and the answers in order. */
  datatype Batch = Batch(users: seq<User>, responses: seq<Response>)

  function Run(users: seq<User>, ds: seq<SignupData>): Batch
  {
    if ds == [] then Batch(users, [])
    else
      var b := Run(users, ds[..|ds| - 1]);
      var o := SignupResult(b.users, ds[|ds| - 1]);
      Batch(o.users, b.responses + [o.response])
  }

  /** The user ids handed out by a sequence of answers, in order. */
  function IssuedIds(rs: seq<Response>): seq<nat>
  {
    if rs == [] then []
    else
      var last := rs[|rs| - 1];
      IssuedIds(rs[..|rs| - 1]) + if last.Created? then [last.userId] else []
  }

  /** The ids of a batch are those of the earlier answers followed by the id of
      the last answer when it is a success. */
  lemma IssuedIdsAppend(rs: seq<Response>, r: Response)
    ensures IssuedIds(rs + [r]) == IssuedIds(rs) + if r.Created? then [r.userId] else []
  {
  }

  /** Successive successful signups get ids |users|+1, |users|+2, ... in order; the
      store grows by exactly one record per id and its earlier records stay in place. */
  lemma {:induction false} RunIssuesConsecutiveIds(users: seq<User>, ds: seq<SignupData>)
    ensures var b := Run(users, ds);
      |b.users| == |users| + |IssuedIds(b.responses)| && b.users[..|users|] == users
    ensures var ids := IssuedIds(Run(users, ds).responses);
      forall k :: 0 <= k < |ids| ==> ids[k] == |users| + k + 1
  {
    if ds != [] {
      var b := Run(users, ds[..|ds| - 1]);
      RunIssuesConsecutiveIds(users, ds[..|ds| - 1]);
      var o := SignupResult(b.users, ds[|ds| - 1]);
      SignupEffect(b.users, ds[|ds| - 1]);
      assert Run(users, ds) == Batch(o.users, b.responses + [o.response]);
      IssuedIdsAppend(b.responses, o.response);
      var ids0 := IssuedIds(b.responses);
      if o.response.Created? {
        assert o.users[..|users|] == o.users[..|b.users|][..|users|];
        assert o.response.userId == |users| + |ids0| + 1;
      } else {
        assert o.users == b.users;
      }
    }
  }

  /** Hence the ids handed out strictly increase and never repeat. */
  lemma IssuedIdsIncrease(users: seq<User>, ds: seq<SignupData>)
    ensures var ids := IssuedIds(Run(users, ds).responses);
      forall k, l :: 0 <= k < l < |ids| ==> ids[k] < ids[l]
  {
    RunIssuesConsecutiveIds(users, ds);
  }

  /** However many signups are handled, stored emails stay pairwise distinct. */
  lemma {:induction false} RunKeepsEmailsDistinct(users: seq<User>, ds: seq<SignupData>)
    requires EmailsDistinct(users)
    ensures EmailsDistinct(Run(users, ds).users)
  {
    if ds != [] {
      RunKeepsEmailsDistinct(users, ds[..|ds| - 1]);
      SignupKeepsEmailsDistinct(Run(users, ds[..|ds| - 1]).users, ds[|ds| - 1]);
    }
  }

  /** The module-level `users` list of the server. */
  class UserStore {
    var users: seq<User>

    ghost predicate Valid()
      reads this
    {
      EmailsDistinct(users)
    }

    constructor ()
      ensures Valid() && users == []
    {
      users := [];
    }

    /** The scan over the stored users for one with exactly this email. */
    method EmailRegistered(email: string) returns (found: bool)
      ensures found <==> exists u :: u in users && u.email == email
    {
      var i := 0;
      while i < |users|
        invariant 0 <= i <= |users|
        invariant forall j :: 0 <= j < i ==> users[j].email != email
      {
        if users[i].email == email {
          return true;
        }
        i := i + 1;
      }
      return false;
    }

    /** Handle one signup request: validate, scan for the email, append, answer. */
    method Signup(d: SignupData) returns (r: Response)
      requires Valid()
      modifies this
      ensures Valid()
      ensures Outcome(r, users) == SignupResult(old(users), d)
      ensures r.Rejected? ==> users == old(users) && r.status == BadRequest
      ensures r.Created? ==> users == old(users) + [NewUser(d)] && r.userId == |users|
    {
      var invalid := Validate(d);
      if invalid.Some? {
        return Rejected(BadRequest, Detail(invalid.value));
      }
      var taken := EmailRegistered(d.email);
      if taken {
        return Rejected(BadRequest, Detail(EmailExists));
      }
      SignupKeepsEmailsDistinct(users, d);
      users := users + [NewUser(d)];
      r := Created(CreatedMessage, |users|);
    }
  }
}
