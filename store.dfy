/** The user collection as mutable state: what `new User(...).save()` and `findByIdAndUpdate` change. */
module Store {
  import opened Users

  class UserStore {
    var records: seq<User>
    var nextId: nat

    ghost predicate Valid()
      reads this
    {
      Wf(Contents())
    }

    function Contents(): Collection
      reads this
    {
      Collection(records, nextId)
    }

    constructor ()
      ensures Valid() && records == [] && nextId == 0
    {
      records := [];
      nextId := 0;
    }

    /** `save()` of a new document: it is given a fresh identifier and appended; nothing else changes. */
    method Save(draft: User) returns (saved: User)
      requires Valid()
      modifies this
      ensures Valid()
      ensures saved == draft.(id := old(nextId))
      ensures records == old(records) + [saved] && nextId == old(nextId) + 1
    {
      saved := draft.(id := nextId);
      records := records + [saved];
      nextId := nextId + 1;
    }

    /** Writes back the document at position `k`, which keeps its identifier. */
    method Replace(k: nat, u: User)
      requires Valid() && k < |records| && u.id == records[k].id
      modifies this
      ensures Valid()
      ensures records == old(records)[k := u] && nextId == old(nextId)
    {
      records := records[k := u];
    }
  }
}
