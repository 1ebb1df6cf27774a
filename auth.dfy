/**
 * The three handlers of backend/routes/auth.js: POST /signup, POST /signin and POST /google.
 * Each handler is specified by a function from the collection before the request to the response
 * and the collection after it; the two handlers that write are also methods on the store.
 */
module Auth {
  import opened Options
  import opened Users
  import opened Validation
  import opened Store

  datatype SignupRequest = SignupRequest(
    firstName: Option<string>,
    lastName: Option<string>,
    phoneNumber: Option<string>,
    gender: Option<string>,
    email: Option<string>,
    password: Option<string>)

  datatype SigninRequest = SigninRequest(email: Option<string>, password: Option<string>)

  datatype GoogleRequest = GoogleRequest(email: Option<string>, name: Option<string>, appwriteId: Option<string>)

  const MissingPrefix := "Missing required fields: "
  const InvalidEmailMessage := "Please enter a valid email address"
  const ShortPasswordMessage := "Password must be at least 6 characters long"
  const DuplicateMessage := "User already exists"
  const SignupOkMessage := "Signup successful"
  const CredentialsRequiredMessage := "Email and password are required"
  const InvalidCredentialsMessage := "Invalid email or password"
  const SigninOkMessage := "Sign in successful"
  const GoogleOkMessage := "Google login successful"

  // ---------------------------------------------------------------------------
  // Signup: the missing-field report

  /** The required fields, in the order the report lists them. */
  const RequiredNames: seq<string> := ["first name", "last name", "email", "password"]

  function RequiredValues(req: SignupRequest): seq<Option<string>> {
    [req.firstName, req.lastName, req.email, req.password]
  }

  predicate HasRequired(req: SignupRequest) {
    Truthy(req.firstName) && Truthy(req.lastName) && Truthy(req.email) && Truthy(req.password)
  }

  /** The names whose values are not truthy, in their given order. */
  function Absent(names: seq<string>, values: seq<Option<string>>): seq<string>
    requires |names| == |values|
  {
    if names == [] then []
    else (if Truthy(values[0]) then [] else [names[0]]) + Absent(names[1..], values[1..])
  }

  /** `xs` is `ys` with some items left out, the rest kept in order. */
  ghost predicate IsSubsequence(xs: seq<string>, ys: seq<string>)
    decreases |ys|
  {
    if xs == [] then true
    else if ys == [] then false
    else (xs[0] == ys[0] && IsSubsequence(xs[1..], ys[1..])) || IsSubsequence(xs, ys[1..])
  }

  lemma {:induction false} AbsentMembers(names: seq<string>, values: seq<Option<string>>, x: string)
    requires |names| == |values|
    ensures x in Absent(names, values) <==>
      exists i :: 0 <= i < |names| && names[i] == x && !Truthy(values[i])
  {
    if names != [] {
      AbsentMembers(names[1..], values[1..], x);
      if x in Absent(names[1..], values[1..]) {
        var i :| 0 <= i < |names[1..]| && names[1..][i] == x && !Truthy(values[1..][i]);
        assert names[i + 1] == x && !Truthy(values[i + 1]);
      }
      if exists i :: 0 <= i < |names| && names[i] == x && !Truthy(values[i]) {
        var i :| 0 <= i < |names| && names[i] == x && !Truthy(values[i]);
        if i > 0 {
          assert names[1..][i - 1] == x && !Truthy(values[1..][i - 1]);
        }
      }
    }
  }

  lemma {:induction false} AbsentSubsequence(names: seq<string>, values: seq<Option<string>>)
    requires |names| == |values|
    ensures IsSubsequence(Absent(names, values), names)
  {
    if names != [] {
      var rest := Absent(names[1..], values[1..]);
      AbsentSubsequence(names[1..], values[1..]);
      if Truthy(values[0]) {
        assert Absent(names, values) == rest;
      } else {
        assert Absent(names, values) == [names[0]] + rest;
        assert ([names[0]] + rest)[1..] == rest;
      }
    }
  }

  /** The names of the required fields that are absent or empty. */
  function Missing(req: SignupRequest): seq<string> {
    Absent(RequiredNames, RequiredValues(req))
  }

  /**
   * The report names exactly the required fields that are absent or empty, keeps the fixed order
   * first name, last name, email, password, and is empty exactly when all four are present.
   */
  lemma MissingFieldsInOrder(req: SignupRequest)
    ensures forall x :: x in Missing(req) <==>
      (x == "first name" && !Truthy(req.firstName)) || (x == "last name" && !Truthy(req.lastName)) ||
      (x == "email" && !Truthy(req.email)) || (x == "password" && !Truthy(req.password))
    ensures IsSubsequence(Missing(req), RequiredNames)
    ensures Missing(req) == [] <==> HasRequired(req)
  {
    var ns, vs := RequiredNames, RequiredValues(req);
    forall x ensures x in Missing(req) <==>
      (x == "first name" && !Truthy(req.firstName)) || (x == "last name" && !Truthy(req.lastName)) ||
      (x == "email" && !Truthy(req.email)) || (x == "password" && !Truthy(req.password))
    {
      AbsentMembers(ns, vs, x);
      assert ns[0] == "first name" && ns[1] == "last name" && ns[2] == "email" && ns[3] == "password";
    }
    AbsentSubsequence(ns, vs);
    if Missing(req) != [] {
      assert Missing(req)[0] in Missing(req);
    }
    if !HasRequired(req) {
      var x := if !Truthy(req.firstName) then "first name"
        else if !Truthy(req.lastName) then "last name"
        else if !Truthy(req.email) then "email" else "password";
      assert x in Missing(req);
    }
  }

  /** Signup's `missingFields.push(...)` sequence. */
  method CollectMissing(req: SignupRequest) returns (missing: seq<string>)
    ensures missing == Missing(req)
  {
    missing := [];
    if !Truthy(req.firstName) { missing := missing + ["first name"]; }
    if !Truthy(req.lastName) { missing := missing + ["last name"]; }
    if !Truthy(req.email) { missing := missing + ["email"]; }
    if !Truthy(req.password) { missing := missing + ["password"]; }
    ghost var vs := RequiredValues(req);
    assert Absent(RequiredNames[3..], vs[3..]) == (if Truthy(req.password) then [] else ["password"]);
    assert Absent(RequiredNames[2..], vs[2..]) ==
      (if Truthy(req.email) then [] else ["email"]) + Absent(RequiredNames[3..], vs[3..]);
    assert Absent(RequiredNames[1..], vs[1..]) ==
      (if Truthy(req.lastName) then [] else ["last name"]) + Absent(RequiredNames[2..], vs[2..]);
  }

  function MissingMessage(req: SignupRequest): string {
    MissingPrefix + Join(Missing(req), ", ")
  }

  /** What follows the prefix of the report reads back as exactly the list of missing fields. */
  lemma MissingMessageLists(req: SignupRequest)
    requires !HasRequired(req)
    ensures MissingPrefix <= MissingMessage(req)
    ensures SplitList(MissingMessage(req)[|MissingPrefix|..]) == Missing(req)
  {
    MissingFieldsInOrder(req);
    var m := Missing(req);
    forall k | 0 <= k < |m| ensures ',' !in m[k] {
      assert m[k] in m;
    }
    assert MissingMessage(req)[|MissingPrefix|..] == Join(m, ", ");
    SplitJoin(m);
  }

  // ---------------------------------------------------------------------------
  // Signup: the decision and the write

  /** The first validation failure in the order the handler checks, or `None`; no store access. */
  function ValidationError(req: SignupRequest): Option<string> {
    if !HasRequired(req) then Some(MissingMessage(req))
    else if !IsEmailShaped(req.email.value) then Some(InvalidEmailMessage)
    else if PasswordTooShort(req.password.value) then Some(ShortPasswordMessage)
    else None
  }

  /** The document `new User({ firstName, lastName, phoneNumber, gender, email, password })`. */
  function NewUser(id: nat, req: SignupRequest): User {
    User(id, None, req.firstName, req.lastName, req.email, req.phoneNumber, req.gender, req.password, None)
  }

  function SignupOutcome(c: Collection, req: SignupRequest): Outcome {
    match ValidationError(req)
    case Some(m) => Outcome(Response(400, Message(m)), c)
    case None =>
      if FirstWithEmail(c.records, req.email).Some? then Outcome(Response(400, Message(DuplicateMessage)), c)
      else Outcome(Response(200, Message(SignupOkMessage)),
                   Collection(c.records + [NewUser(c.nextId, req)], c.nextId + 1))
  }

  method Signup(store: UserStore, req: SignupRequest) returns (resp: Response)
    requires store.Valid()
    modifies store
    ensures store.Valid()
    ensures Outcome(resp, store.Contents()) == SignupOutcome(old(store.Contents()), req)
  {
    if !Truthy(req.firstName) || !Truthy(req.lastName) || !Truthy(req.email) || !Truthy(req.password) {
      var missing := CollectMissing(req);
      return Response(400, Message(MissingPrefix + Join(missing, ", ")));
    }
    if !IsEmailShaped(req.email.value) {
      return Response(400, Message(InvalidEmailMessage));
    }
    if PasswordTooShort(req.password.value) {
      return Response(400, Message(ShortPasswordMessage));
    }
    var existing := FirstWithEmail(store.records, req.email);
    if existing.Some? {
      return Response(400, Message(DuplicateMessage));
    }
    var _ := store.Save(NewUser(0, req));
    resp := Response(200, Message(SignupOkMessage));
  }

  /** A signup is answered with the missing-field report exactly when a required field is absent or empty. */
  lemma SignupMissingFields(c: Collection, req: SignupRequest)
    ensures var r := SignupOutcome(c, req).response;
      (r.status == 400 && r.body.Message? && MissingPrefix <= r.body.text) <==> !HasRequired(req)
    ensures !HasRequired(req) ==>
      SignupOutcome(c, req) == Outcome(Response(400, Message(MissingMessage(req))), c)
  {
    assert InvalidEmailMessage[0] == 'P' && ShortPasswordMessage[0] == 'P';
    assert DuplicateMessage[0] == 'U' && SignupOkMessage[0] == 'S';
  }

  /**
   * The checks run in a fixed order and each later one is reached only when the earlier ones pass:
   * required fields, email shape, password length, then the store lookup.
   */
  lemma SignupCheckOrder(c: Collection, req: SignupRequest)
    ensures SignupOutcome(c, req).response == Response(400, Message(InvalidEmailMessage)) <==>
      HasRequired(req) && !IsEmailShaped(req.email.value)
    ensures SignupOutcome(c, req).response == Response(400, Message(ShortPasswordMessage)) <==>
      HasRequired(req) && IsEmailShaped(req.email.value) && PasswordTooShort(req.password.value)
    ensures SignupOutcome(c, req).response == Response(400, Message(DuplicateMessage)) <==>
      ValidationError(req).None? && FirstWithEmail(c.records, req.email).Some?
  {
    if !HasRequired(req) {
      assert MissingMessage(req)[0] == 'M';
      assert InvalidEmailMessage[0] == 'P' && ShortPasswordMessage[0] == 'P' && DuplicateMessage[0] == 'U';
    }
  }

  /** A request that fails validation is answered the same whatever the store holds, and changes nothing. */
  lemma SignupValidationIgnoresStore(c1: Collection, c2: Collection, req: SignupRequest)
    requires ValidationError(req).Some?
    ensures SignupOutcome(c1, req).response == SignupOutcome(c2, req).response
    ensures SignupOutcome(c1, req).after == c1 && SignupOutcome(c2, req).after == c2
  {
  }

  /** Every rejection leaves the collection as it was; a duplicate email never yields a second record. */
  lemma SignupRejectionKeepsStore(c: Collection, req: SignupRequest)
    ensures SignupOutcome(c, req).response.status != 200 ==> SignupOutcome(c, req).after == c
    ensures FirstWithEmail(c.records, req.email).Some? ==>
      SignupOutcome(c, req).after == c && SignupOutcome(c, req).response.status == 400
  {
  }

  /**
   * Signup succeeds exactly when validation passes and no record has the email. Then one record is
   * appended, holding the submitted fields under a fresh identifier, it is the only record with that
   * email, and the answer is the plain success message (no token).
   */
  lemma SignupSuccess(c: Collection, req: SignupRequest)
    requires Wf(c)
    ensures SignupOutcome(c, req).response.status == 200 <==>
      ValidationError(req).None? && forall k :: 0 <= k < |c.records| ==> c.records[k].email != req.email
    ensures var o := SignupOutcome(c, req);
      o.response.status == 200 ==>
        && o.response.body == Message(SignupOkMessage)
        && o.after.records == c.records + [NewUser(c.nextId, req)]
        && (forall k :: 0 <= k < |c.records| ==> c.records[k].id != c.nextId)
        && (forall k :: 0 <= k < |o.after.records| ==> (o.after.records[k].email == req.email <==> k == |c.records|))
        && Wf(o.after)
  {
  }

  // ---------------------------------------------------------------------------
  // Signin

  /** The signin decision; `matchPassword` stands for the model's hash comparison. It reads and never writes. */
  function Signin(rs: seq<User>, req: SigninRequest, matchPassword: (User, string) -> bool): Response {
    if !Truthy(req.email) || !Truthy(req.password) then Response(400, Message(CredentialsRequiredMessage))
    else match FirstWithEmail(rs, req.email)
      case None => Response(400, Message(InvalidCredentialsMessage))
      case Some(k) =>
        if !matchPassword(rs[k], req.password.value) then Response(400, Message(InvalidCredentialsMessage))
        else Response(200, SignedIn(SigninOkMessage, PublicView(rs[k])))
  }

  /** The "required" answer is given exactly when the email or the password is absent or empty. */
  lemma SigninRequiresBoth(rs: seq<User>, req: SigninRequest, matchPassword: (User, string) -> bool)
    ensures Signin(rs, req, matchPassword) == Response(400, Message(CredentialsRequiredMessage)) <==>
      !Truthy(req.email) || !Truthy(req.password)
  {
  }

  /**
   * Signin succeeds exactly when both inputs are present, a record has the email and the password
   * matches the first such record; the answer is that record's public view:
   * its identifier, email, first and last name, phone number and gender, and no password.
   */
  lemma SigninSuccess(rs: seq<User>, req: SigninRequest, matchPassword: (User, string) -> bool)
    ensures var r := Signin(rs, req, matchPassword);
      r.status == 200 <==>
        Truthy(req.email) && Truthy(req.password) &&
        FirstWithEmail(rs, req.email).Some? &&
        matchPassword(rs[FirstWithEmail(rs, req.email).value], req.password.value)
    ensures var r := Signin(rs, req, matchPassword);
      r.status == 200 ==>
        var k := FirstWithEmail(rs, req.email).value;
        r.body == SignedIn(SigninOkMessage,
          PublicUser(rs[k].id, rs[k].email, rs[k].firstName, rs[k].lastName, rs[k].phoneNumber, rs[k].gender))
  {
  }

  /** An unknown email and a wrong password get the same answer, so the answer does not reveal which it was. */
  lemma SigninFailuresIndistinguishable(
    rs1: seq<User>, m1: (User, string) -> bool, rs2: seq<User>, m2: (User, string) -> bool,
    req: SigninRequest, k: nat)
    requires Truthy(req.email) && Truthy(req.password)
    requires FirstWithEmail(rs1, req.email).None?
    requires FirstWithEmail(rs2, req.email) == Some(k) && !m2(rs2[k], req.password.value)
    ensures Signin(rs1, req, m1) == Signin(rs2, req, m2) == Response(400, Message(InvalidCredentialsMessage))
  {
  }

  /**
   * After a successful signup, signin with the same email and password succeeds with the new record,
   * provided the hash comparison accepts the password just saved.
   */
  lemma SignupThenSignin(c: Collection, req: SignupRequest, matchPassword: (User, string) -> bool)
    requires SignupOutcome(c, req).response.status == 200
    requires matchPassword(NewUser(c.nextId, req), req.password.value)
    ensures Signin(SignupOutcome(c, req).after.records, SigninRequest(req.email, req.password), matchPassword) ==
      Response(200, SignedIn(SigninOkMessage, PublicView(NewUser(c.nextId, req))))
  {
    FirstWithEmailAppended(c.records, NewUser(c.nextId, req));
  }

  // ---------------------------------------------------------------------------
  // Google find-or-create

  /** The document `new User({ firstName: name, email, appwriteId })`. */
  function GoogleUser(id: nat, req: GoogleRequest): User {
    User(id, None, req.name, None, req.email, None, None, None, req.appwriteId)
  }

  /** The answer carries the whole record that was found or created. */
  function GoogleOutcome(c: Collection, req: GoogleRequest): Outcome {
    match FirstWithEmail(c.records, req.email)
    case Some(k) => Outcome(Response(200, GoogleLogin(GoogleOkMessage, c.records[k])), c)
    case None =>
      var u := GoogleUser(c.nextId, req);
      Outcome(Response(200, GoogleLogin(GoogleOkMessage, u)), Collection(c.records + [u], c.nextId + 1))
  }

  method Google(store: UserStore, req: GoogleRequest) returns (resp: Response)
    requires store.Valid()
    modifies store
    ensures store.Valid()
    ensures Outcome(resp, store.Contents()) == GoogleOutcome(old(store.Contents()), req)
  {
    var existing := FirstWithEmail(store.records, req.email);
    var user: User;
    if existing.None? {
      user := store.Save(GoogleUser(0, req));
    } else {
      user := store.records[existing.value];
    }
    resp := Response(200, GoogleLogin(GoogleOkMessage, user));
  }

  /**
   * Find-or-create keyed by email: a second call with the same email, whatever its name and
   * appwriteId, adds no record, changes none, and returns the record of the first call.
   */
  lemma {:induction false} GoogleKeyedByEmail(c: Collection, r1: GoogleRequest, r2: GoogleRequest)
    requires r1.email == r2.email
    ensures var o1 := GoogleOutcome(c, r1);
      GoogleOutcome(o1.after, r2) == Outcome(o1.response, o1.after)
  {
    if FirstWithEmail(c.records, r1.email).None? {
      FirstWithEmailAppended(c.records, GoogleUser(c.nextId, r1));
    }
  }

  /** Repeating the same call changes nothing and gives the same answer. */
  lemma GoogleIdempotent(c: Collection, req: GoogleRequest)
    ensures GoogleOutcome(GoogleOutcome(c, req).after, req) == GoogleOutcome(c, req)
  {
    GoogleKeyedByEmail(c, req, req);
  }

  /**
   * A record is created exactly when none has the email; an existing record is returned as stored.
   * Either way the answer is 200 `Google login successful` with that record.
   */
  lemma GoogleFindOrCreate(c: Collection, req: GoogleRequest)
    requires Wf(c)
    ensures var o := GoogleOutcome(c, req);
      (exists k :: 0 <= k < |c.records| && c.records[k].email == req.email) ==>
        o.after == c && o.response.body.record == c.records[FirstWithEmail(c.records, req.email).value]
    ensures var o := GoogleOutcome(c, req);
      (forall k :: 0 <= k < |c.records| ==> c.records[k].email != req.email) ==>
        o.after.records == c.records + [GoogleUser(c.nextId, req)] && Wf(o.after)
    ensures GoogleOutcome(c, req).response ==
      Response(200, GoogleLogin(GoogleOkMessage,
        match FirstWithEmail(c.records, req.email)
        case Some(k) => c.records[k]
        case None => GoogleUser(c.nextId, req)))
  {
  }
}
