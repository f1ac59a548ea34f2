/** The top-level component (src/App.tsx): the user collection, the loading
    flag and the edit session, and the handlers that update them. Each
    handler that rewrites the collection does so through a pure sequence
    function (toggle-by-id, replace-by-id, remove-by-id) specified below. */
module App {
  import opened Wrappers
  import opened UserTypes
  import opened Api
  import opened EditUserModal

  /** `{...user, liked: !user.liked}`: an absent `liked` becomes true. */
  function Toggled(u: User): (r: User)
    ensures r.liked == Some(!IsLiked(u)) && SameExceptLiked(r, u)
    ensures IsLiked(r) == !IsLiked(u)
  {
    u.(liked := Some(!IsLiked(u)))
  }

  /** The `handleLike` updater: toggles `liked` on every record with the id. */
  function ToggleById(users: seq<User>, id: int): (r: seq<User>)
    ensures |r| == |users|
    ensures forall i :: 0 <= i < |users| ==> SameExceptLiked(r[i], users[i])
    ensures forall i :: 0 <= i < |users| && users[i].id != id ==> r[i] == users[i]
    ensures forall i :: 0 <= i < |users| && users[i].id == id ==>
      r[i].liked == Some(!IsLiked(users[i]))
  {
    if users == [] then []
    else [if users[0].id == id then Toggled(users[0]) else users[0]] + ToggleById(users[1..], id)
  }

  /** The `handleSaveUser` updater: every record with the updated record's id is replaced by it. */
  function ReplaceById(users: seq<User>, updated: User): (r: seq<User>)
    ensures |r| == |users|
    ensures forall i :: 0 <= i < |users| && users[i].id == updated.id ==> r[i] == updated
    ensures forall i :: 0 <= i < |users| && users[i].id != updated.id ==> r[i] == users[i]
  {
    if users == [] then []
    else [if users[0].id == updated.id then updated else users[0]] + ReplaceById(users[1..], updated)
  }

  /** The `onOk` updater of `handleDelete`: drops every record with the id. Each record
      without the id keeps its number of occurrences. */
  function RemoveById(users: seq<User>, id: int): (r: seq<User>)
    ensures forall u :: u in r <==> u in users && u.id != id
    ensures forall u :: multiset(r)[u] == if u.id == id then 0 else multiset(users)[u]
  {
    if users == [] then []
    else
      assert users == [users[0]] + users[1..];
      if users[0].id == id then RemoveById(users[1..], id)
      else [users[0]] + RemoveById(users[1..], id)
  }

  /** `users.find(u => u.id === userId)`: the first record with the id, if any. */
  function FindById(users: seq<User>, id: int): (r: Option<User>)
    ensures r.None? <==> !HasId(users, id)
    ensures r.Some? ==>
      r.value.id == id && exists i :: 0 <= i < |users| && users[i] == r.value && !HasId(users[..i], id)
  {
    if users == [] then None
    else if users[0].id == id then
      assert users[..0] == [];
      Some(users[0])
    else
      var r := FindById(users[1..], id);
      if r.Some? then
        var i :| 0 <= i < |users[1..]| && users[1..][i] == r.value && !HasId(users[1..][..i], id);
        assert users[..i + 1] == [users[0]] + users[1..][..i];
        r
      else
        r
  }

  // ---------------------------------------------------------------- like

  /** Liking twice restores every record's truthiness and leaves `liked` defined:
      an absent value becomes true, then false. */
  lemma ToggleTwice(users: seq<User>, id: int)
    ensures var twice := ToggleById(ToggleById(users, id), id);
      && |twice| == |users|
      && (forall i :: 0 <= i < |users| && users[i].id != id ==> twice[i] == users[i])
      && (forall i :: 0 <= i < |users| && users[i].id == id ==>
            SameExceptLiked(twice[i], users[i]) && twice[i].liked == Some(IsLiked(users[i])))
  {
  }

  /** With unique ids, liking changes exactly the one record that has the id. */
  lemma ToggleUnique(users: seq<User>, id: int, k: int)
    requires UniqueIds(users) && 0 <= k < |users| && users[k].id == id
    ensures var r := ToggleById(users, id);
      (forall i :: 0 <= i < |users| && i != k ==> r[i] == users[i]) && IsLiked(r[k]) == !IsLiked(users[k])
  {
  }

  /** Liking an id no record has changes nothing. */
  lemma ToggleAbsent(users: seq<User>, id: int)
    requires !HasId(users, id)
    ensures ToggleById(users, id) == users
  {
  }

  /** Liking keeps the ids in place, so it keeps them unique. */
  lemma TogglePreservesUniqueIds(users: seq<User>, id: int)
    requires UniqueIds(users)
    ensures UniqueIds(ToggleById(users, id))
  {
  }

  // ---------------------------------------------------------------- save

  /** Saving a record whose id is absent (deleted while the editor was open) changes nothing. */
  lemma ReplaceAbsent(users: seq<User>, updated: User)
    requires !HasId(users, updated.id)
    ensures ReplaceById(users, updated) == users
  {
  }

  /** Saving the same record twice is saving it once. */
  lemma ReplaceIdempotent(users: seq<User>, updated: User)
    ensures ReplaceById(ReplaceById(users, updated), updated) == ReplaceById(users, updated)
  {
  }

  /** Saving keeps the ids in place, so it keeps them unique. */
  lemma ReplacePreservesUniqueIds(users: seq<User>, updated: User)
    requires UniqueIds(users)
    ensures UniqueIds(ReplaceById(users, updated))
  {
  }

  /** Saving the editor's merge of record k and reading record k back shows the submitted
      values in the five form fields, and the id, username, address and `liked` of before. */
  lemma SaveMergeReadBack(users: seq<User>, k: int, v: FormValues)
    requires 0 <= k < |users|
    ensures var r := ReplaceById(users, Merge(users[k], v));
      && FormOf(r[k]) == v
      && r[k].id == users[k].id && r[k].username == users[k].username
      && r[k].address == users[k].address && r[k].liked == users[k].liked
  {
    FormOfMerge(users[k], v);
  }

  // ---------------------------------------------------------------- delete

  /** Deleting distributes over concatenation: the kept records stay in their relative order. */
  lemma {:induction false} RemoveConcat(a: seq<User>, b: seq<User>, id: int)
    ensures RemoveById(a + b, id) == RemoveById(a, id) + RemoveById(b, id)
  {
    if a == [] {
      assert a + b == b;
    } else {
      assert (a + b)[1..] == a[1..] + b;
      RemoveConcat(a[1..], b, id);
    }
  }

  /** Deleting an id no record has changes nothing. */
  lemma {:induction false} RemoveAbsent(users: seq<User>, id: int)
    requires !HasId(users, id)
    ensures RemoveById(users, id) == users
  {
    if users != [] {
      assert !HasId(users[1..], id) by {
        forall i | 0 <= i < |users[1..]| ensures users[1..][i].id != id {
          assert users[1..][i] == users[i + 1];
        }
      }
      RemoveAbsent(users[1..], id);
      assert users == [users[0]] + users[1..];
    }
  }

  /** Confirming the same delete twice is confirming it once. */
  lemma RemoveIdempotent(users: seq<User>, id: int)
    ensures RemoveById(RemoveById(users, id), id) == RemoveById(users, id)
  {
    var r := RemoveById(users, id);
    assert !HasId(r, id) by {
      forall i | 0 <= i < |r| ensures r[i].id != id {
        assert r[i] in r;
      }
    }
    RemoveAbsent(r, id);
  }

  /** A collection has an id exactly when its head or its tail has it. */
  lemma HasIdCons(users: seq<User>, id: int)
    requires users != []
    ensures HasId(users, id) <==> users[0].id == id || HasId(users[1..], id)
  {
    if HasId(users[1..], id) {
      var j :| 0 <= j < |users[1..]| && users[1..][j].id == id;
      assert users[j + 1].id == id;
    }
    if HasId(users, id) && users[0].id != id {
      var j :| 0 <= j < |users| && users[j].id == id;
      assert users[1..][j - 1].id == id;
    }
  }

  /** With unique ids, the tail's ids are unique and none of them is the head's. */
  lemma UniqueIdsTail(users: seq<User>)
    requires UniqueIds(users) && users != []
    ensures UniqueIds(users[1..]) && !HasId(users[1..], users[0].id)
  {
    var rest := users[1..];
    forall i, j | 0 <= i < j < |rest| ensures rest[i].id != rest[j].id {
      assert rest[i] == users[i + 1] && rest[j] == users[j + 1];
    }
    forall j | 0 <= j < |rest| ensures rest[j].id != users[0].id {
      assert rest[j] == users[j + 1];
    }
  }

  /** Putting a record in front of a collection that lacks its id keeps ids unique. */
  lemma UniqueIdsCons(u: User, rest: seq<User>)
    requires UniqueIds(rest) && forall v :: v in rest ==> v.id != u.id
    ensures UniqueIds([u] + rest)
  {
    var s := [u] + rest;
    forall i, j | 0 <= i < j < |s| ensures s[i].id != s[j].id {
      assert s[j] == rest[j - 1];
      if i > 0 {
        assert s[i] == rest[i - 1];
      }
    }
  }

  /** With unique ids, deleting a present id removes exactly one record, and ids stay unique. */
  lemma {:induction false} RemoveUnique(users: seq<User>, id: int)
    requires UniqueIds(users)
    ensures var r := RemoveById(users, id);
      UniqueIds(r) && |r| == if HasId(users, id) then |users| - 1 else |users|
  {
    if users != [] {
      var rest := users[1..];
      UniqueIdsTail(users);
      HasIdCons(users, id);
      RemoveUnique(rest, id);
      if users[0].id == id {
        RemoveAbsent(rest, id);
      } else {
        var r' := RemoveById(rest, id);
        forall v | v in r' ensures v.id != users[0].id {
          var j :| 0 <= j < |rest| && rest[j] == v;
        }
        UniqueIdsCons(users[0], r');
      }
    }
  }

  // ---------------------------------------------------------------- state

  /** The delete confirmation as built by `handleDelete`: the id the `onOk` callback closes
      over and the name shown in the prompt (`user?.name`). */
  datatype DeleteRequest = DeleteRequest(userId: int, promptName: Option<string>)

  /** The component's four state cells. */
  class AppState {
    var users: seq<User>
    var loading: bool
    var editModalVisible: bool
    var editingUser: Option<User>

    /** The modal is open exactly while a user is being edited. */
    ghost predicate Valid()
      reads this
    {
      editModalVisible <==> editingUser.Some?
    }

    /** The initial state: no users, loading, no edit session. */
    constructor ()
      ensures Valid()
      ensures users == [] && loading && !editModalVisible && editingUser == None
    {
      users := [];
      loading := true;
      editModalVisible := false;
      editingUser := None;
    }

    /** `loadUsers`: applies the fetch outcome; `errorShown` is the failure toast. */
    method LoadUsers(attempt: FetchAttempt) returns (errorShown: bool)
      requires Valid()
      modifies this
      ensures Valid() && !loading
      ensures errorShown <==> FetchUsers(attempt).Failure?
      ensures FetchUsers(attempt).Success? ==> users == FetchUsers(attempt).value
      ensures FetchUsers(attempt).Failure? ==> users == old(users)
      ensures editModalVisible == old(editModalVisible) && editingUser == old(editingUser)
    {
      loading := true;
      var outcome := FetchUsers(attempt);
      if outcome.Success? {
        users := outcome.value;
        errorShown := false;
      } else {
        errorShown := true;
      }
      loading := false;
    }

    /** `handleLike`. */
    method HandleLike(id: int)
      requires Valid()
      modifies this
      ensures Valid()
      ensures users == ToggleById(old(users), id)
      ensures loading == old(loading) && editModalVisible == old(editModalVisible)
      ensures editingUser == old(editingUser)
    {
      users := ToggleById(users, id);
    }

    /** `handleEdit`: opens the edit session on the given record. */
    method HandleEdit(user: User)
      requires Valid()
      modifies this
      ensures Valid()
      ensures editingUser == Some(user) && editModalVisible
      ensures users == old(users) && loading == old(loading)
    {
      editingUser := Some(user);
      editModalVisible := true;
    }

    /** `handleSaveUser`: replaces the records with the saved record's id and closes the session. */
    method HandleSaveUser(updated: User)
      requires Valid()
      modifies this
      ensures Valid()
      ensures users == ReplaceById(old(users), updated)
      ensures !editModalVisible && editingUser == None && loading == old(loading)
    {
      users := ReplaceById(users, updated);
      editModalVisible := false;
      editingUser := None;
    }

    /** `handleDelete`: only builds the confirmation; nothing changes until it is confirmed. */
    method HandleDelete(id: int) returns (request: DeleteRequest)
      requires Valid()
      ensures request.userId == id
      ensures request.promptName.Some? <==> HasId(users, id)
      ensures request.promptName.Some? ==> request.promptName.value == FindById(users, id).value.name
    {
      var target := FindById(users, id);
      request := DeleteRequest(id, if target.Some? then Some(target.value.name) else None);
    }

    /** The `onOk` callback of the confirmation: removes the records with the requested id. */
    method ConfirmDelete(request: DeleteRequest)
      requires Valid()
      modifies this
      ensures Valid()
      ensures users == RemoveById(old(users), request.userId)
      ensures loading == old(loading) && editModalVisible == old(editModalVisible)
      ensures editingUser == old(editingUser)
    {
      users := RemoveById(users, request.userId);
    }

    /** `handleModalCancel`: closes the edit session without touching the collection. */
    method HandleModalCancel()
      requires Valid()
      modifies this
      ensures Valid()
      ensures !editModalVisible && editingUser == None
      ensures users == old(users) && loading == old(loading)
    {
      editModalVisible := false;
      editingUser := None;
    }

    /** The modal's Save button as wired by the component (`user={editingUser}`,
        `onSave={handleSaveUser}`): a failed validation leaves every state cell as it was. */
    method ModalSave(values: FormValues, isEmail: string -> bool) returns (call: ModalCall)
      requires Valid()
      modifies this
      ensures Valid()
      ensures call == HandleSave(old(editingUser), values, isEmail)
      ensures call.OnSave? ==>
        users == ReplaceById(old(users), call.updated) && !editModalVisible && editingUser == None
      ensures !call.OnSave? ==>
        users == old(users) && editModalVisible == old(editModalVisible) && editingUser == old(editingUser)
      ensures loading == old(loading)
    {
      call := HandleSave(editingUser, values, isEmail);
      if call.OnSave? {
        HandleSaveUser(call.updated);
      }
    }

    /** The modal's Cancel button as wired by the component (`onCancel={handleModalCancel}`). */
    method ModalCancel() returns (call: ModalCall)
      requires Valid()
      modifies this
      ensures Valid()
      ensures call == OnCancel
      ensures !editModalVisible && editingUser == None
      ensures users == old(users) && loading == old(loading)
    {
      call := HandleCancel();
      HandleModalCancel();
    }
  }
}
