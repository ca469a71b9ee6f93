/** The admin user list: the handlers that send a change to the server and,
    only when the response is successful, update the list shown and close the
    dialog that started them. */
module UserManagement {
  import opened Collections
  import opened Schema

  /** The component's state. */
  datatype Screen = Screen(
    users: seq<User>,
    editingUser: Option<User>,
    userToDelete: Option<User>,
    deleteDialogOpen: bool,
    userToChangePassword: Option<User>,
    passwordDialogOpen: bool,
    newPassword: string)

  /** The requests the handlers send. */
  datatype Request =
    | RoleRequest(userId: Id, role: string)
    | EditRequest(user: User)
    | DeleteRequest(userId: Id)
    | PasswordRequest(userId: Id, newPassword: string)

  /** No two users of the list share an id (as loaded from the keyed table). */
  ghost predicate IdsDistinct(users: seq<User>) {
    forall i, j :: 0 <= i < j < |users| ==> users[i].id != users[j].id
  }

  /** `handleRoleChange`: the request is always sent; on success every user
      with the id takes the new role and nothing else changes; on failure the
      screen stays as it is. */
  function RoleChange(s: Screen, userId: Id, newRole: string, responseOk: bool): (r: (Request, Screen))
    ensures r.0 == RoleRequest(userId, newRole)
    ensures !responseOk ==> r.1 == s
    ensures responseOk ==>
      && r.1 == s.(users := r.1.users)
      && |r.1.users| == |s.users|
      && forall i :: 0 <= i < |s.users| ==>
           && r.1.users[i].(role := s.users[i].role) == s.users[i]
           && r.1.users[i].role == (if s.users[i].id == userId then newRole else s.users[i].role)
  {
    if !responseOk then (RoleRequest(userId, newRole), s)
    else
      var users := seq(|s.users|, i requires 0 <= i < |s.users| =>
                       if s.users[i].id == userId then s.users[i].(role := newRole) else s.users[i]);
      (RoleRequest(userId, newRole), s.(users := users))
  }

  /** `handleEditUser`: with no user being edited nothing is sent and nothing
      changes; on success the edited record replaces every user with its id and
      the edit form closes; on failure the screen stays as it is. */
  function EditUser(s: Screen, responseOk: bool): (r: (Option<Request>, Screen))
    ensures s.editingUser.None? ==> r == (None, s)
    ensures s.editingUser.Some? ==> r.0 == Some(EditRequest(s.editingUser.value))
    ensures s.editingUser.Some? && !responseOk ==> r.1 == s
    ensures s.editingUser.Some? && responseOk ==>
      var edited := s.editingUser.value;
      && r.1 == s.(users := r.1.users, editingUser := None)
      && |r.1.users| == |s.users|
      && forall i :: 0 <= i < |s.users| ==>
           r.1.users[i] == (if s.users[i].id == edited.id then edited else s.users[i])
  {
    if s.editingUser.None? then (None, s)
    else
      var edited := s.editingUser.value;
      if !responseOk then (Some(EditRequest(edited)), s)
      else
        var users := seq(|s.users|, i requires 0 <= i < |s.users| =>
                         if s.users[i].id == edited.id then edited else s.users[i]);
        (Some(EditRequest(edited)), s.(users := users, editingUser := None))
  }

  /** `handleDeleteUser`: with no user selected nothing is sent and nothing
      changes; on success every user with the id leaves the list and the dialog
      closes; on failure the screen stays as it is. */
  function DeleteUser(s: Screen, responseOk: bool): (r: (Option<Request>, Screen))
    ensures s.userToDelete.None? ==> r == (None, s)
    ensures s.userToDelete.Some? ==> r.0 == Some(DeleteRequest(s.userToDelete.value.id))
    ensures s.userToDelete.Some? && !responseOk ==> r.1 == s
    ensures s.userToDelete.Some? && responseOk ==>
      && r.1 == s.(users := r.1.users, deleteDialogOpen := false, userToDelete := None)
      && forall u :: u in r.1.users <==> u in s.users && u.id != s.userToDelete.value.id
  {
    if s.userToDelete.None? then (None, s)
    else
      var id := s.userToDelete.value.id;
      if !responseOk then (Some(DeleteRequest(id)), s)
      else
        var users := Filter(s.users, (u: User) => u.id != id);
        (Some(DeleteRequest(id)), s.(users := users, deleteDialogOpen := false, userToDelete := None))
  }

  /** `handleChangePassword`: with no user selected nothing is sent; on success
      the dialog closes and the typed password is cleared; the list itself is
      never changed. */
  function ChangePassword(s: Screen, responseOk: bool): (r: (Option<Request>, Screen))
    ensures r.1.users == s.users
    ensures s.userToChangePassword.None? ==> r == (None, s)
    ensures s.userToChangePassword.Some? ==>
      r.0 == Some(PasswordRequest(s.userToChangePassword.value.id, s.newPassword))
    ensures s.userToChangePassword.Some? && !responseOk ==> r.1 == s
    ensures s.userToChangePassword.Some? && responseOk ==>
      r.1 == s.(passwordDialogOpen := false, userToChangePassword := None, newPassword := "")
  {
    if s.userToChangePassword.None? then (None, s)
    else
      var request := PasswordRequest(s.userToChangePassword.value.id, s.newPassword);
      if !responseOk then (Some(request), s)
      else (Some(request), s.(passwordDialogOpen := false, userToChangePassword := None, newPassword := ""))
  }

  /** With distinct ids, a successful delete takes out exactly the selected
      user's entry and keeps the others in their order. */
  lemma DeleteRemovesOneEntry(s: Screen, k: nat)
    requires IdsDistinct(s.users) && k < |s.users|
    requires s.userToDelete.Some? && s.userToDelete.value.id == s.users[k].id
    ensures DeleteUser(s, true).1.users == s.users[..k] + s.users[k + 1..]
  {
    var id := s.users[k].id;
    FilterRemovesOne(s.users, (u: User) => u.id != id, k);
  }

  /** A successful delete of an id the list does not hold leaves the list as it is. */
  lemma DeleteAbsentKeepsList(s: Screen)
    requires s.userToDelete.Some? && forall u :: u in s.users ==> u.id != s.userToDelete.value.id
    ensures DeleteUser(s, true).1.users == s.users
  {
    FilterKeepsAll(s.users, (u: User) => u.id != s.userToDelete.value.id);
  }

  /** Every handler keeps the ids of the list distinct. */
  lemma HandlersKeepIdsDistinct(s: Screen, userId: Id, newRole: string, ok: bool)
    requires IdsDistinct(s.users)
    ensures IdsDistinct(RoleChange(s, userId, newRole, ok).1.users)
    ensures IdsDistinct(EditUser(s, ok).1.users)
    ensures IdsDistinct(DeleteUser(s, ok).1.users)
    ensures IdsDistinct(ChangePassword(s, ok).1.users)
  {
    if s.userToDelete.Some? && ok {
      var id := s.userToDelete.value.id;
      FilterKeepsDistinct(s.users, (u: User) => u.id != id, (u: User) => u.id);
    }
  }
}
