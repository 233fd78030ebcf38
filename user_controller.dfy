/**
 * The registration endpoint of the backend and the employee-ID allocator it
 * calls. The user collection is a sequence of records in creation order, so
 * the most recently created record is the last one. Password hashing is a
 * function supplied by the caller, and the step at which the store or the
 * hasher throws, if any, is a parameter.
 */
module UserController {
  import opened Wrappers
  import opened Numerals
  import opened JsRuntime

  /** The fields of a registration request body. */
  datatype Request = Request(
    name: string, email: string, dob: string, gender: string,
    role: string, password: string, mobile: string, age: string)

  /** A stored user record; `employeeId` is `None` when the document has none. */
  datatype User = User(
    employeeId: Option<string>,
    name: string, email: string, dob: string, gender: string,
    role: string, password: string, mobile: string, age: string)

  /** An HTTP status with the JSON body's `message` and, on success, `employeeId`. */
  datatype Response = Response(status: nat, message: string, employeeId: Option<string>)

  /** The awaited steps of a registration, any of which may throw. */
  datatype Step = Lookup | Hash | Allocate | Save

  /** `findOne().sort({ createdAt: -1 })`: the last record created, if any. */
  function MostRecent(users: seq<User>): (r: Option<User>)
    ensures r.None? <==> users == []
    ensures r.Some? ==> r.value == users[|users| - 1]
  {
    if users == [] then None else Some(users[|users| - 1])
  }

  /** The identifier `EMP<n>`. */
  function EmpId(n: nat): (id: string)
    ensures |id| > 3 && id[..3] == "EMP" && id[3..] == Format(n)
  {
    "EMP" + Format(n)
  }

  /** Different numbers give different identifiers. */
  lemma EmpIdInjective(m: nat, n: nat)
    requires EmpId(m) == EmpId(n)
    ensures m == n
  {
    FormatInjective(m, n);
  }

  // ---------------------------------------------------------------------------
  // The allocator

  /**
   * `generateEmployeeId`: `EMP1001` when there is no record or the last one has
   * no identifier; otherwise the first `EMP` of the last identifier is removed,
   * the rest goes through `parseInt`, and one more than that is appended to
   * `EMP` (so a suffix `parseInt` cannot read gives `EMPNaN`).
   */
  function GenerateEmployeeId(lastUser: Option<User>): (id: string)
    ensures |id| > 3 && id[..3] == "EMP"
  {
    if lastUser.None? || lastUser.value.employeeId.None? || lastUser.value.employeeId.value == "" then
      "EMP1001"
    else
      var lastId := ParseInt(ReplaceFirst(lastUser.value.employeeId.value, "EMP", ""));
      var newId := AddOne(lastId);
      "EMP" + NumberToString(newId)
  }

  /** No record, or a last record without an identifier: the first identifier. */
  lemma GenerateDefaults(lastUser: Option<User>)
    requires lastUser.None? || lastUser.value.employeeId.None? || lastUser.value.employeeId == Some("")
    ensures GenerateEmployeeId(lastUser) == EmpId(1001)
  {
    assert Format(1001) == "1001";
  }

  /**
   * After `EMP` followed by decimal digits `d` comes `EMP` followed by the
   * rendering of value(d) + 1, whose value is larger than value(d).
   */
  lemma GenerateNext(u: User, d: string)
    requires u.employeeId == Some("EMP" + d)
    requires |d| > 0 && AllDigits(d)
    ensures GenerateEmployeeId(Some(u)) == EmpId(Value(d, 10) + 1)
    ensures var suffix := GenerateEmployeeId(Some(u))[3..];
      IsCanonical(suffix) && Value(suffix, 10) > Value(d, 10)
  {
    var v := Value(d, 10);
    assert ParseInt(ReplaceFirst("EMP" + d, "EMP", "")) == Int(v) by {
      SuffixValue(d);
    }
    GenerateFromSuffix(u, "EMP" + d, v);
    assert Value(Format(v + 1), 10) == v + 1 by {
      ValueOfFormat(v + 1);
    }
  }

  /** A last identifier whose suffix `parseInt` reads as `v` is followed by `EMP<v+1>`. */
  lemma GenerateFromSuffix(u: User, id: string, v: nat)
    requires u.employeeId == Some(id) && id != ""
    requires ParseInt(ReplaceFirst(id, "EMP", "")) == Int(v)
    ensures GenerateEmployeeId(Some(u)) == EmpId(v + 1)
  {
  }

  /** Removing `EMP` from `EMP` + digits and parsing gives the digits' value. */
  lemma SuffixValue(d: string)
    requires |d| > 0 && AllDigits(d)
    ensures ParseInt(ReplaceFirst("EMP" + d, "EMP", "")) == Int(Value(d, 10))
  {
    ReplaceFirstAtStart("EMP", d);
    ParseIntOfDigits(d);
  }

  /** The allocator applied to its own output counts up by one. */
  lemma GenerateAfterEmpId(u: User, n: nat)
    requires u.employeeId == Some(EmpId(n))
    ensures GenerateEmployeeId(Some(u)) == EmpId(n + 1)
  {
    GenerateNext(u, Format(n));
    ValueOfFormat(n);
  }

  /** The identifiers the first example below uses. */
  lemma ExampleIds()
    ensures EmpId(1042) == "EMP1042" && EmpId(1043) == "EMP1043"
  {
    assert Format(104) == "104";
    assert Format(1042) == "1042" && Format(1043) == "1043";
  }

  /** The identifier and digit string the second example below uses. */
  lemma PaddedExampleIds()
    ensures EmpId(100) == "EMP100"
    ensures "EMP0099" == "EMP" + "0099" && AllDigits("0099") && Value("0099", 10) == 99
  {
    assert Format(100) == "100";
    assert Format(99) == "99";
    ValueOfFormat(99);
    ValueLeadingZero("99");
    assert "0099" == "0" + ("0" + "99");
    ValueLeadingZero("0" + "99");
  }

  /** `EMP1042` is followed by `EMP1043`. */
  lemma GenerateExample(u: User)
    requires u.employeeId == Some("EMP1042")
    ensures GenerateEmployeeId(Some(u)) == "EMP1043"
  {
    ExampleIds();
    GenerateAfterEmpId(u, 1042);
  }

  /** Leading zeros are dropped: `EMP0099` is followed by `EMP100`. */
  lemma GenerateDropsLeadingZeros(u: User)
    requires u.employeeId == Some("EMP0099")
    ensures GenerateEmployeeId(Some(u)) == "EMP100"
  {
    PaddedExampleIds();
    GenerateNext(u, "0099");
  }

  /**
   * A last identifier `EMPNaN`, which the allocator writes after an unreadable
   * suffix, is followed by `EMPNaN` again.
   */
  lemma GenerateAfterNaN(u: User)
    requires u.employeeId == Some("EMPNaN")
    ensures GenerateEmployeeId(Some(u)) == "EMPNaN"
  {
    assert "EMPNaN" == "EMP" + "NaN";
    ReplaceFirstAtStart("EMP", "NaN");
    ParseIntNoDigits("NaN");
  }

  // ---------------------------------------------------------------------------
  // The collection

  predicate EmailTaken(users: seq<User>, email: string) {
    exists k :: 0 <= k < |users| && users[k].email == email
  }

  /** `findOne({ email })`: the first record with that email, if any. */
  function FindByEmail(users: seq<User>, email: string): (r: Option<User>)
    ensures r.Some? <==> EmailTaken(users, email)
    ensures r.Some? ==> r.value in users && r.value.email == email
    decreases |users|
  {
    if users == [] then None
    else if users[0].email == email then Some(users[0])
    else
      var r := FindByEmail(users[1..], email);
      assert forall k :: 1 <= k < |users| ==> users[k] == users[1..][k - 1];
      r
  }

  /** No two records share an email. */
  ghost predicate EmailsDistinct(users: seq<User>) {
    forall i, j :: 0 <= i < j < |users| ==> users[i].email != users[j].email
  }

  /** The records carry `EMP1001`, `EMP1002`, ... in creation order. */
  ghost predicate SequentialIds(users: seq<User>) {
    forall i :: 0 <= i < |users| ==> users[i].employeeId == Some(EmpId(1001 + i))
  }

  /** Sequentially numbered records have pairwise different identifiers. */
  lemma SequentialIdsDistinct(users: seq<User>, i: nat, j: nat)
    requires SequentialIds(users)
    requires i < j < |users|
    ensures users[i].employeeId != users[j].employeeId
  {
    if users[i].employeeId == users[j].employeeId {
      EmpIdInjective(1001 + i, 1001 + j);
    }
  }

  // ---------------------------------------------------------------------------
  // The endpoint

  const ServerError := Response(500, "Server error", None)
  const DuplicateEmail := Response(400, "User already exists with this email", None)

  function Created(employeeId: string): Response {
    Response(201, "User registered successfully", Some(employeeId))
  }

  /** The request fields a record holds: everything but the identifier. */
  function RequestOf(u: User): Request {
    Request(u.name, u.email, u.dob, u.gender, u.role, u.password, u.mobile, u.age)
  }

  /**
   * `new User({...})`: a record with the given identifier that holds the
   * request with its password replaced by the hash.
   */
  function NewUser(req: Request, employeeId: string, hashedPassword: string): (u: User)
    ensures u.employeeId == Some(employeeId)
    ensures RequestOf(u) == req.(password := hashedPassword)
  {
    User(Some(employeeId), req.name, req.email, req.dob, req.gender, req.role,
         hashedPassword, req.mobile, req.age)
  }

  /** The collection after a request, and the response sent. */
  datatype Outcome = Outcome(users: seq<User>, response: Response)

  /**
   * `registerUser`: reject a known email with 400; otherwise hash, allocate and
   * save, answering 201 with the new identifier. A throw at any step that is
   * reached leaves the collection as it was and answers 500.
   */
  function Register(users: seq<User>, req: Request, hash: string -> string, fault: Option<Step>): (r: Outcome)
    ensures r.response.status in {201, 400, 500}
    ensures r.response.status == 400 <==> fault != Some(Lookup) && EmailTaken(users, req.email)
    ensures r.response.status == 500 <==> fault == Some(Lookup) || (fault.Some? && !EmailTaken(users, req.email))
    ensures r.response.status == 201 <==> fault.None? && !EmailTaken(users, req.email)
    ensures r.response.status != 201 ==> r.users == users && r.response.employeeId.None?
    ensures r.response.status == 201 ==>
      && |r.users| == |users| + 1 && r.users[..|users|] == users
      && r.response.employeeId == r.users[|users|].employeeId
      && RequestOf(r.users[|users|]) == req.(password := hash(req.password))
  {
    if fault == Some(Lookup) then Outcome(users, ServerError)
    else if FindByEmail(users, req.email).Some? then Outcome(users, DuplicateEmail)
    else if fault.Some? then Outcome(users, ServerError)  // hashing, allocating or saving threw
    else
      var hashedPassword := hash(req.password);
      var employeeId := GenerateEmployeeId(MostRecent(users));
      var newUser := NewUser(req, employeeId, hashedPassword);
      assert (users + [newUser])[..|users|] == users;
      Outcome(users + [newUser], Created(employeeId))
  }

  /** Registration never stores a second record with an email already taken. */
  lemma RegisterKeepsEmailsDistinct(users: seq<User>, req: Request, hash: string -> string, fault: Option<Step>)
    requires EmailsDistinct(users)
    ensures EmailsDistinct(Register(users, req, hash, fault).users)
  {
    var r := Register(users, req, hash, fault);
    if r.response.status == 201 {
      assert r.users == users + [r.users[|users|]];
      assert r.users[|users|].email == req.email by {
        assert RequestOf(r.users[|users|]).email == req.email;
      }
    }
  }

  /** A known email is refused with 400 and nothing is written or allocated. */
  lemma RegisterDuplicate(users: seq<User>, req: Request, hash: string -> string, fault: Option<Step>)
    requires EmailTaken(users, req.email) && fault != Some(Lookup)
    ensures Register(users, req, hash, fault) == Outcome(users, DuplicateEmail)
  {
  }

  /** A throw before the record is saved leaves the collection unchanged and answers 500. */
  lemma RegisterFault(users: seq<User>, req: Request, hash: string -> string, step: Step)
    requires step == Lookup || !EmailTaken(users, req.email)
    ensures Register(users, req, hash, Some(step)) == Outcome(users, ServerError)
  {
    match step
    case Lookup =>
    case Hash =>
    case Allocate =>
    case Save =>
  }

  /**
   * A new email with no throw appends exactly one record, carrying the next
   * identifier, the hashed password and the request's other fields; the
   * response reports that identifier with 201.
   */
  lemma RegisterSuccess(users: seq<User>, req: Request, hash: string -> string)
    requires !EmailTaken(users, req.email)
    ensures var o := Register(users, req, hash, None);
      var id := GenerateEmployeeId(MostRecent(users));
      && o.users == users + [NewUser(req, id, hash(req.password))]
      && o.users[|users|].employeeId == Some(id)
      && o.users[|users|].password == hash(req.password)
      && o.response == Created(id)
  {
  }

  /** On sequentially numbered records the allocator hands out the next number. */
  lemma NextIdIsSequential(users: seq<User>)
    requires SequentialIds(users)
    ensures GenerateEmployeeId(MostRecent(users)) == EmpId(1001 + |users|)
  {
    if users == [] {
      GenerateDefaults(None);
    } else {
      GenerateAfterEmpId(users[|users| - 1], 1000 + |users|);
    }
  }

  /** Appending a record with a new email and the next identifier keeps both invariants. */
  lemma AppendKeepsInvariant(users: seq<User>, u: User)
    requires EmailsDistinct(users) && SequentialIds(users)
    requires !EmailTaken(users, u.email) && u.employeeId == Some(EmpId(1001 + |users|))
    ensures EmailsDistinct(users + [u]) && SequentialIds(users + [u])
  {
  }

  /**
   * Registration keeps the emails distinct and the identifiers sequential, and
   * the only record it can add is the one with the next identifier.
   */
  lemma RegisterPreservesInvariant(users: seq<User>, req: Request, hash: string -> string, fault: Option<Step>)
    requires EmailsDistinct(users) && SequentialIds(users)
    ensures var o := Register(users, req, hash, fault);
      EmailsDistinct(o.users) && SequentialIds(o.users) &&
      (o.users == users || (o.response == Created(EmpId(1001 + |users|)) && o.users[..|users|] == users))
  {
    RegisterKeepsEmailsDistinct(users, req, hash, fault);
    var o := Register(users, req, hash, fault);
    if o.users != users {
      NextIdIsSequential(users);
      var id := EmpId(1001 + |users|);
      RegisterSuccess(users, req, hash);
      AppendKeepsInvariant(users, NewUser(req, id, hash(req.password)));
      assert o.users[..|users|] == users;
    }
  }

  // ---------------------------------------------------------------------------
  // Registrations in sequence

  /** The collection and the responses after each request in turn, none throwing. */
  datatype History = History(users: seq<User>, responses: seq<Response>)

  function RegisterAll(reqs: seq<Request>, hash: string -> string): History
    decreases |reqs|
  {
    if reqs == [] then History([], [])
    else
      var h := RegisterAll(reqs[..|reqs| - 1], hash);
      var o := Register(h.users, reqs[|reqs| - 1], hash, None);
      History(o.users, h.responses + [o.response])
  }

  /** The responses `Created(EMP<start>)`, `Created(EMP<start+1>)`, ..., k of them. */
  function CreatedRun(start: nat, k: nat): seq<Response>
    decreases k
  {
    if k == 0 then [] else CreatedRun(start, k - 1) + [Created(EmpId(start + k - 1))]
  }

  /** The i-th response of the run is `Created(EMP<start+i>)`. */
  lemma {:induction false} CreatedRunAt(start: nat, k: nat)
    ensures |CreatedRun(start, k)| == k
    ensures forall i :: 0 <= i < k ==> CreatedRun(start, k)[i] == Created(EmpId(start + i))
    decreases k
  {
    if k > 0 {
      CreatedRunAt(start, k - 1);
    }
  }

  /** The induction behind `SuccessiveRegistrations`, with the responses as one run. */
  lemma {:induction false} RegisterAllCreates(reqs: seq<Request>, hash: string -> string)
    requires forall i, j :: 0 <= i < j < |reqs| ==> reqs[i].email != reqs[j].email
    ensures var h := RegisterAll(reqs, hash);
      && |h.users| == |reqs| && h.responses == CreatedRun(1001, |reqs|)
      && EmailsDistinct(h.users) && SequentialIds(h.users)
      && (forall i :: 0 <= i < |reqs| ==> h.users[i].email == reqs[i].email)
    decreases |reqs|
  {
    if reqs != [] {
      var n := |reqs| - 1;
      var prefix := reqs[..n];
      var req := reqs[n];
      RegisterAllCreates(prefix, hash);
      var h := RegisterAll(prefix, hash);
      assert !EmailTaken(h.users, req.email) by {
        forall k | 0 <= k < |h.users| ensures h.users[k].email != req.email {
          assert h.users[k].email == prefix[k].email == reqs[k].email;
        }
      }
      var o := Register(h.users, req, hash, None);
      assert RegisterAll(reqs, hash) == History(o.users, h.responses + [o.response]) by {
        assert reqs[..|reqs| - 1] == prefix;
      }
      RegisterPreservesInvariant(h.users, req, hash, None);
      NextIdIsSequential(h.users);
      RegisterSuccess(h.users, req, hash);
      assert o.users == h.users + [o.users[n]] && o.users[n].email == req.email;
    }
  }

  /**
   * From an empty collection, k registrations with distinct emails succeed in
   * order and are assigned `EMP1001` ... `EMP(1000+k)`.
   */
  lemma SuccessiveRegistrations(reqs: seq<Request>, hash: string -> string)
    requires forall i, j :: 0 <= i < j < |reqs| ==> reqs[i].email != reqs[j].email
    ensures var h := RegisterAll(reqs, hash);
      && |h.users| == |reqs| && |h.responses| == |reqs|
      && EmailsDistinct(h.users) && SequentialIds(h.users)
      && (forall i :: 0 <= i < |reqs| ==> h.responses[i] == Created(EmpId(1001 + i)))
      && (forall i :: 0 <= i < |reqs| ==> h.users[i].email == reqs[i].email)
  {
    RegisterAllCreates(reqs, hash);
    CreatedRunAt(1001, |reqs|);
  }

  // ---------------------------------------------------------------------------
  // The collection as mutable state

  class UserStore {
    /** The user collection, oldest record first. */
    var users: seq<User>

    ghost predicate Valid()
      reads this
    {
      EmailsDistinct(users) && SequentialIds(users)
    }

    constructor ()
      ensures Valid() && users == []
    {
      users := [];
    }

    /**
     * `registerUser`, step by step: look up the email, hash the password,
     * allocate the identifier, save the record. The response is what the
     * endpoint sends; the collection changes only on a 201.
     */
    method RegisterUser(req: Request, hash: string -> string, fault: Option<Step>) returns (res: Response)
      requires Valid()
      modifies this
      ensures Valid()
      ensures Outcome(users, res) == Register(old(users), req, hash, fault)
      ensures res.status != 201 ==> users == old(users)
      ensures res.status == 201 ==>
        && users == old(users) + [users[|users| - 1]]
        && res.employeeId == users[|users| - 1].employeeId == Some(EmpId(1001 + |old(users)|))
        && users[|users| - 1].password == hash(req.password)
    {
      assert fault == None || fault == Some(Lookup) || fault == Some(Hash) || fault == Some(Allocate) || fault == Some(Save) by {
        match fault
        case None =>
        case Some(step) =>
          match step
          case Lookup =>
          case Hash =>
          case Allocate =>
          case Save =>
      }
      if fault == Some(Lookup) {
        res := ServerError;
        assert Outcome(users, res) == Register(users, req, hash, fault) by {
          RegisterFault(users, req, hash, Lookup);
        }
        return;
      }
      var existingUser := FindByEmail(users, req.email);
      if existingUser.Some? {
        res := DuplicateEmail;
        assert Outcome(users, res) == Register(users, req, hash, fault) by {
          RegisterDuplicate(users, req, hash, fault);
        }
        return;
      }
      if fault == Some(Hash) {
        res := ServerError;
        assert Outcome(users, res) == Register(users, req, hash, fault) by {
          RegisterFault(users, req, hash, Hash);
        }
        return;
      }
      var hashedPassword := hash(req.password);
      if fault == Some(Allocate) {
        res := ServerError;
        assert Outcome(users, res) == Register(users, req, hash, fault) by {
          RegisterFault(users, req, hash, Allocate);
        }
        return;
      }
      var employeeId := GenerateEmployeeId(MostRecent(users));
      var newUser := NewUser(req, employeeId, hashedPassword);
      if fault == Some(Save) {
        res := ServerError;
        assert Outcome(users, res) == Register(users, req, hash, fault) by {
          RegisterFault(users, req, hash, Save);
        }
        return;
      }
      RegisterSuccess(users, req, hash);
      NextIdIsSequential(users);
      AppendKeepsInvariant(users, newUser);
      users := users + [newUser];
      res := Created(employeeId);
    }
  }

}
