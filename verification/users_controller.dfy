/**
 * `Api::V1::UsersController#update`, guarded in the order its
 * before-actions are declared: `set_user` (404), `authenticate_user!`
 * (401), then `authorize_user!` (403).
 */
module UsersController {
  import opened Wrappers
  import Users
  import Persistence

  /** `update`: only the user themself may change their bio, website and avatar. */
  method Update(s: Persistence.Store, current: Option<nat>, id: nat, changes: Users.ProfileChanges) returns (status: Status)
    requires s.UsersValid()
    modifies s`users
    ensures s.UsersValid()
    ensures status != Ok ==> unchanged(s)
    ensures id !in old(s.users.rows) ==> status == NotFound
    ensures id in old(s.users.rows) && current.None? ==> status == Unauthorized
    ensures id in old(s.users.rows) && current.Some? && current.value != id ==> status == Forbidden
    ensures id in old(s.users.rows) && current == Some(id) ==>
      && status == Ok
      && s.users == old(s.users).Put(id, Users.ApplyProfile(old(s.users.rows[id]), changes))
  {
    if id !in s.users.rows {
      return NotFound;
    }
    if current.None? {
      return Unauthorized;
    }
    if current.value != id {
      return Forbidden;
    }
    var ok := s.UpdateProfile(id, changes);
    status := if ok then Ok else UnprocessableEntity;
  }
}
