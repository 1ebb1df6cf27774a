/**
 * The two handlers of backend/routes/profile.js, for a caller whose identifier the authentication
 * middleware has already established: GET /me and PUT /me.
 */
module Profile {
  import opened Options
  import opened Users
  import opened Store

  const NotFoundMessage := "User not found"

  /** The members of the PUT body the handler reads. */
  datatype ProfileBody = ProfileBody(
    firstName: Option<string>,
    lastName: Option<string>,
    email: Option<string>,
    phoneNumber: Option<string>,
    gender: Option<string>)

  /** The fields PUT may write. */
  datatype Field = FirstName | LastName | Email | PhoneNumber | Gender

  const Whitelist: set<Field> := {FirstName, LastName, Email, PhoneNumber, Gender}

  function BodyValue(b: ProfileBody, f: Field): Option<string> {
    match f
    case FirstName => b.firstName
    case LastName => b.lastName
    case Email => b.email
    case PhoneNumber => b.phoneNumber
    case Gender => b.gender
  }

  function StoredValue(u: User, f: Field): Option<string> {
    match f
    case FirstName => u.firstName
    case LastName => u.lastName
    case Email => u.email
    case PhoneNumber => u.phoneNumber
    case Gender => u.gender
  }

  // ---------------------------------------------------------------------------
  // GET /me

  /** `User.findById(id).select('-password')`, or 404 when no record has the caller's identifier. */
  function GetMe(rs: seq<User>, caller: nat): (r: Response)
    ensures r.status == 200 <==> exists k :: 0 <= k < |rs| && rs[k].id == caller
    ensures r.status != 200 ==> r == Response(404, Message(NotFoundMessage))
    ensures r.status == 200 ==>
      exists k :: 0 <= k < |rs| && rs[k].id == caller &&
        r.body == Document(ProfileView(rs[k].id, rs[k].username, rs[k].firstName, rs[k].lastName,
                                   rs[k].email, rs[k].phoneNumber, rs[k].gender, rs[k].appwriteId))
  {
    match IndexOfId(rs, caller)
    case None => Response(404, Message(NotFoundMessage))
    case Some(k) => Response(200, Document(WithoutPassword(rs[k])))
  }

  // ---------------------------------------------------------------------------
  // PUT /me: the field map

  /** `profileFields`: the whitelisted members of the body whose values are truthy. */
  function ProfileFields(b: ProfileBody): map<Field, string> {
    map f | f in Whitelist && Truthy(BodyValue(b, f)) :: BodyValue(b, f).value
  }

  /** The handler's successive `if (x) profileFields.x = x` assignments. */
  method BuildProfileFields(b: ProfileBody) returns (fields: map<Field, string>)
    ensures forall f :: f in fields <==> Truthy(BodyValue(b, f))
    ensures forall f :: f in fields ==> Some(fields[f]) == BodyValue(b, f)
    ensures fields == ProfileFields(b)
  {
    fields := map[];
    if Truthy(b.firstName) { fields := fields[FirstName := b.firstName.value]; }
    if Truthy(b.lastName) { fields := fields[LastName := b.lastName.value]; }
    if Truthy(b.email) { fields := fields[Email := b.email.value]; }
    if Truthy(b.phoneNumber) { fields := fields[PhoneNumber := b.phoneNumber.value]; }
    if Truthy(b.gender) { fields := fields[Gender := b.gender.value]; }
  }

  /** `{ $set: m }` on one document. */
  function ApplySet(u: User, m: map<Field, string>): User {
    u.(firstName := if FirstName in m then Some(m[FirstName]) else u.firstName,
       lastName := if LastName in m then Some(m[LastName]) else u.lastName,
       email := if Email in m then Some(m[Email]) else u.email,
       phoneNumber := if PhoneNumber in m then Some(m[PhoneNumber]) else u.phoneNumber,
       gender := if Gender in m then Some(m[Gender]) else u.gender)
  }

  /** `$set` writes the fields the map names and no other: identifier, username, password, appwriteId stay. */
  lemma SetOnlyNamedFields(u: User, m: map<Field, string>)
    ensures forall f :: StoredValue(ApplySet(u, m), f) == if f in m then Some(m[f]) else StoredValue(u, f)
    ensures var v := ApplySet(u, m);
      v.id == u.id && v.username == u.username && v.password == u.password && v.appwriteId == u.appwriteId
  {
  }

  /**
   * A body member that is omitted or empty leaves the stored value as it was, so PUT cannot clear
   * a field; a truthy member replaces it.
   */
  lemma UpdateCannotClear(u: User, b: ProfileBody, f: Field)
    ensures !Truthy(BodyValue(b, f)) ==> StoredValue(ApplySet(u, ProfileFields(b)), f) == StoredValue(u, f)
    ensures Truthy(BodyValue(b, f)) ==> StoredValue(ApplySet(u, ProfileFields(b)), f) == BodyValue(b, f)
  {
  }

  // ---------------------------------------------------------------------------
  // PUT /me: the decision and the write

  function UpdateOutcome(c: Collection, caller: nat, b: ProfileBody): Outcome {
    match IndexOfId(c.records, caller)
    case None => Outcome(Response(404, Message(NotFoundMessage)), c)
    case Some(k) =>
      var u := ApplySet(c.records[k], ProfileFields(b));
      Outcome(Response(200, Document(WithoutPassword(u))), Collection(c.records[k := u], c.nextId))
  }

  method UpdateMe(store: UserStore, caller: nat, b: ProfileBody) returns (resp: Response)
    requires store.Valid()
    modifies store
    ensures store.Valid()
    ensures Outcome(resp, store.Contents()) == UpdateOutcome(old(store.Contents()), caller, b)
  {
    var fields := BuildProfileFields(b);
    var found := IndexOfId(store.records, caller);
    if found.Some? {
      var k := found.value;
      var u := ApplySet(store.records[k], fields);
      store.Replace(k, u);
      return Response(200, Document(WithoutPassword(u)));
    }
    resp := Response(404, Message(NotFoundMessage));
  }

  /** An unknown caller gets 404 and the collection is unchanged. */
  lemma UpdateUnknownCaller(c: Collection, caller: nat, b: ProfileBody)
    ensures UpdateOutcome(c, caller, b).response.status == 404 <==>
      forall k :: 0 <= k < |c.records| ==> c.records[k].id != caller
    ensures UpdateOutcome(c, caller, b).response.status == 404 ==>
      UpdateOutcome(c, caller, b) == Outcome(Response(404, Message(NotFoundMessage)), c)
  {
  }

  /**
   * Only the caller's record changes; in it only whitelisted fields change; the collection stays
   * well formed. (Email uniqueness is not claimed: `email` may be set to another user's address.)
   */
  lemma UpdateFrame(c: Collection, caller: nat, b: ProfileBody)
    requires Wf(c)
    ensures var a := UpdateOutcome(c, caller, b).after;
      && a.nextId == c.nextId && |a.records| == |c.records|
      && (forall j :: 0 <= j < |c.records| && c.records[j].id != caller ==> a.records[j] == c.records[j])
      && (forall j :: 0 <= j < |c.records| && c.records[j].id == caller ==>
            a.records[j] == ApplySet(c.records[j], ProfileFields(b)))
      && Wf(a)
  {
  }

  /** Sending the same body twice leaves the same collection, and the same answer, as sending it once. */
  lemma {:induction false} UpdateIdempotent(c: Collection, caller: nat, b: ProfileBody)
    ensures var o := UpdateOutcome(c, caller, b);
      UpdateOutcome(o.after, caller, b) == o
  {
    match IndexOfId(c.records, caller)
    case None =>
    case Some(k) =>
      var m := ProfileFields(b);
      var u := ApplySet(c.records[k], m);
      IndexOfIdAfterReplace(c.records, k, u);
      assert c.records[k := u][k] == u;
      assert ApplySet(u, m) == u;
      assert c.records[k := u][k := u] == c.records[k := u];
  }

  /** A known caller gets 200 with the updated record without its password: what a following GET returns. */
  lemma UpdateThenGet(c: Collection, caller: nat, b: ProfileBody)
    ensures var o := UpdateOutcome(c, caller, b);
      (exists k :: 0 <= k < |c.records| && c.records[k].id == caller) ==>
        o.response.status == 200 && GetMe(o.after.records, caller) == o.response
  {
    UpdateIdempotent(c, caller, b);
  }
}
