/** The user collection: records, the views the routes send back, and the two lookups the routes use. */
module Users {
  import opened Options

  /** One stored user document. `id` stands for the document's `_id`. */
  datatype User = User(
    id: nat,
    username: Option<string>,
    firstName: Option<string>,
    lastName: Option<string>,
    email: Option<string>,
    phoneNumber: Option<string>,
    gender: Option<string>,
    password: Option<string>,
    appwriteId: Option<string>)

  /** The object signin builds by hand: six named fields and nothing else. */
  datatype PublicUser = PublicUser(
    id: nat,
    email: Option<string>,
    firstName: Option<string>,
    lastName: Option<string>,
    phoneNumber: Option<string>,
    gender: Option<string>)

  /** A document read with `.select('-password')`: every stored field but the password. */
  datatype ProfileView = ProfileView(
    id: nat,
    username: Option<string>,
    firstName: Option<string>,
    lastName: Option<string>,
    email: Option<string>,
    phoneNumber: Option<string>,
    gender: Option<string>,
    appwriteId: Option<string>)

  /** The JSON bodies the routes answer with. */
  datatype Body =
    | Message(text: string)
    | SignedIn(text: string, user: PublicUser)
    | GoogleLogin(text: string, record: User)
    | Document(profile: ProfileView)

  datatype Response = Response(status: nat, body: Body)

  /** The collection: documents in insertion order, and the next identifier to hand out. */
  datatype Collection = Collection(records: seq<User>, nextId: nat)

  /** What a request handler answers and what the collection holds afterwards. */
  datatype Outcome = Outcome(response: Response, after: Collection)

  function PublicView(u: User): PublicUser {
    PublicUser(u.id, u.email, u.firstName, u.lastName, u.phoneNumber, u.gender)
  }

  function WithoutPassword(u: User): ProfileView {
    ProfileView(u.id, u.username, u.firstName, u.lastName, u.email, u.phoneNumber, u.gender, u.appwriteId)
  }

  predicate UniqueIds(rs: seq<User>) {
    forall i, j :: 0 <= i < |rs| && 0 <= j < |rs| && rs[i].id == rs[j].id ==> i == j
  }

  /** Well-formed collection: identifiers are distinct and all below the next one to be issued. */
  predicate Wf(c: Collection) {
    UniqueIds(c.records) && forall k :: 0 <= k < |c.records| ==> c.records[k].id < c.nextId
  }

  /** `User.findOne({ email })`: the position of the first document whose email equals the key. */
  function FirstWithEmail(rs: seq<User>, email: Option<string>): (r: Option<nat>)
    ensures r.None? <==> forall k :: 0 <= k < |rs| ==> rs[k].email != email
    ensures r.Some? ==> r.value < |rs| && rs[r.value].email == email
    ensures r.Some? ==> forall k :: 0 <= k < r.value ==> rs[k].email != email
  {
    if rs == [] then None
    else if rs[0].email == email then Some(0)
    else match FirstWithEmail(rs[1..], email)
      case None => None
      case Some(k) => Some(k + 1)
  }

  /**
   * `User.findById(id)`: the position of the first document with that identifier. It is the same
   * first-match search as `FirstWithEmail`, keyed by `id`, with the same contract.
   */
  function IndexOfId(rs: seq<User>, id: nat): (r: Option<nat>)
    ensures r.None? <==> forall k :: 0 <= k < |rs| ==> rs[k].id != id
    ensures r.Some? ==> r.value < |rs| && rs[r.value].id == id
    ensures r.Some? ==> forall k :: 0 <= k < r.value ==> rs[k].id != id
  {
    if rs == [] then None
    else if rs[0].id == id then Some(0)
    else match IndexOfId(rs[1..], id)
      case None => None
      case Some(k) => Some(k + 1)
  }

  /** Appending a document whose email no earlier document has makes it the one `findOne` returns. */
  lemma {:induction false} FirstWithEmailAppended(rs: seq<User>, u: User)
    requires FirstWithEmail(rs, u.email).None?
    ensures FirstWithEmail(rs + [u], u.email) == Some(|rs|)
  {
    var r := FirstWithEmail(rs + [u], u.email);
    assert (rs + [u])[|rs|].email == u.email;
    assert forall k :: 0 <= k < |rs| ==> (rs + [u])[k] == rs[k];
  }

  /** Replacing a document by one with the same identifier keeps `findById` pointing at it. */
  lemma {:induction false} IndexOfIdAfterReplace(rs: seq<User>, k: nat, u: User)
    requires IndexOfId(rs, u.id) == Some(k)
    ensures IndexOfId(rs[k := u], u.id) == Some(k)
  {
    var rs' := rs[k := u];
    assert forall j :: 0 <= j < k ==> rs'[j] == rs[j];
    assert rs'[k].id == u.id;
    var r := IndexOfId(rs', u.id);
    assert r.Some? && r.value <= k;
  }
}
