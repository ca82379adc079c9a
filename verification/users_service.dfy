/** The state-changing side of the users service. */
module UsersService {
  import opened Common
  import opened UserDirectory
  import opened Store

  /** `updateProfile(userId, updateData)`: `findByIdAndUpdate` with `$set`
      and `new: true`. The supplied fields of the record with this id are
      overwritten and the updated record returned; with no such record
      nothing changes and the result is null. Unlike `findById`, the update
      does not look at `isDeleted`. */
  method UpdateProfile(db: Database, userId: UserId, upd: ProfileUpdate) returns (r: Option<User>)
    requires db.Valid()
    modifies db`users
    ensures db.Valid()
    ensures r.None? <==> forall i :: 0 <= i < |old(db.users)| ==> old(db.users)[i].id != userId
    ensures r.None? ==> db.users == old(db.users)
    ensures r.Some? ==>
              exists k :: 0 <= k < |old(db.users)| && old(db.users)[k].id == userId &&
                r.value == ApplyProfileUpdate(old(db.users)[k], upd) &&
                db.users == old(db.users)[k := r.value]
  {
    var found := FirstMatch(db.users, (u: User) => u.id == userId);
    if found.None? {
      return None;
    }
    var k := found.value;
    ProfileUpdateKeepsUserInvariants(db.users, db.follows, db.posts, k, upd);
    var updated := ApplyProfileUpdate(db.users[k], upd);
    db.users := db.users[k := updated];
    r := Some(updated);
  }
}
