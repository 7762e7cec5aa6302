/** The `users` collection, as an immutable sequence of records in insertion
    order. `FindByEmail` is the collection's `findOne({ email })`; `FreshId` stands
    for the identifier the store assigns to a newly inserted document.
 */
module UserStore {

  datatype Option<T> = None | Some(value: T)

  type UserId = nat

  /** A stored user document; `password` holds the hash, never the plaintext. */
  datatype User = User(id: UserId, firstname: string, lastname: string, email: string, password: string)

  type Store = seq<User>

  ghost predicate HasEmail(store: Store, email: string) {
    exists i :: 0 <= i < |store| && store[i].email == email
  }

  /** At most one record per email value. */
  ghost predicate UniqueEmails(store: Store) {
    forall i, j :: 0 <= i < j < |store| ==> store[i].email != store[j].email
  }

  /** No two records share an identifier. */
  ghost predicate UniqueIds(store: Store) {
    forall i, j :: 0 <= i < j < |store| ==> store[i].id != store[j].id
  }

  /** Position of the first record whose email equals `email`, if there is one. */
  function FindByEmail(store: Store, email: string): (r: Option<nat>)
    ensures r.None? <==> !HasEmail(store, email)
    ensures r.Some? ==> r.value < |store| && store[r.value].email == email
    ensures r.Some? ==> forall j :: 0 <= j < r.value ==> store[j].email != email
  {
    if |store| == 0 then None
    else if store[0].email == email then Some(0)
    else
      match FindByEmail(store[1..], email)
      case None =>
        assert forall j :: 1 <= j < |store| ==> store[j] == store[1..][j - 1];
        None
      case Some(i) =>
        assert store[i + 1] == store[1..][i];
        assert forall j :: 1 <= j < i + 1 ==> store[j] == store[1..][j - 1];
        Some(i + 1)
  }

  /** An identifier no record of `store` carries: one more than the largest. */
  function FreshId(store: Store): (id: UserId)
    ensures forall i :: 0 <= i < |store| ==> store[i].id < id
  {
    if |store| == 0 then 0
    else
      var rest := FreshId(store[1..]);
      assert forall i :: 1 <= i < |store| ==> store[i] == store[1..][i - 1];
      if store[0].id + 1 > rest then store[0].id + 1 else rest
  }

  /** Appending records never changes which record a lookup of a present email finds. */
  lemma FindByEmailAfterAppend(store: Store, extra: Store, email: string)
    requires HasEmail(store, email)
    ensures FindByEmail(store + extra, email) == FindByEmail(store, email)
  {
    var i := FindByEmail(store, email).value;
    var all := store + extra;
    assert all[i] == store[i];
    forall j | 0 <= j < i
      ensures all[j].email != email
    {
      assert all[j] == store[j];
    }
  }
}
