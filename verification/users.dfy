/**
 * The `User` model: the defaults a new user gets, the validations every
 * stored user passes, and the profile update the users controller permits.
 */
module Users {
  import opened Wrappers
  import opened Tables
  import opened Text
  import opened Entities

  /** A new user as `save` stores it: `set_defaults` gives karma 0, active, not verified. */
  function NewUser(id: nat, username: string, email: string, now: Time): (u: User)
    ensures u.id == id && u.username == username && u.email == email && u.createdAt == now
    ensures u.karmaScore == 0 && u.isActive && !u.isVerified
    ensures u.bio.None? && u.websiteUrl.None? && u.avatarUrl.None?
  {
    User(id, username, email, 0, true, false, None, None, None, now)
  }

  /** The `User` validations for a new row against the stored ones. */
  predicate CanCreate(t: Table<User>, u: User, lib: Library) {
    && UserFieldsValid(u) && lib.isEmail(u.email)
    && (forall k :: k in t.rows ==> !SameIgnoringCase(t.rows[k].username, u.username))
    && (forall k :: k in t.rows ==> !SameIgnoringCase(t.rows[k].email, u.email))
  }

  /**
   * Every user validates (username 3–30 characters, e-mail present and
   * well-formed, karma not negative), and usernames and e-mails are each
   * unique ignoring case.
   */
  ghost predicate UsersValid(t: Table<User>, lib: Library) {
    && KeyedBy(t, (u: User) => u.id)
    && (forall k :: k in t.rows ==> UserFieldsValid(t.rows[k]) && lib.isEmail(t.rows[k].email))
    && (forall i, j :: i in t.rows && j in t.rows && SameIgnoringCase(t.rows[i].username, t.rows[j].username) ==> i == j)
    && (forall i, j :: i in t.rows && j in t.rows && SameIgnoringCase(t.rows[i].email, t.rows[j].email) ==> i == j)
  }

  /** Inserting a user that passes the validations keeps the table valid. */
  lemma InsertKeeps(t: Table<User>, u: User, lib: Library)
    requires UsersValid(t, lib) && u.id == t.next && CanCreate(t, u, lib)
    ensures UsersValid(t.Insert(u), lib)
  {
    UsernamesStayUnique(t, u, lib);
    EmailsStayUnique(t, u, lib);
  }

  /** A new user whose username clashes with none keeps the usernames unique. */
  lemma UsernamesStayUnique(t: Table<User>, u: User, lib: Library)
    requires UsersValid(t, lib) && u.id == t.next && CanCreate(t, u, lib)
    ensures var r := t.Insert(u).rows;
      forall i, j :: i in r && j in r && SameIgnoringCase(r[i].username, r[j].username) ==> i == j
  {
    var r := t.Insert(u).rows;
    assert t.next !in t.rows;
    forall i, j | i in r && j in r && SameIgnoringCase(r[i].username, r[j].username)
      ensures i == j
    {
      if i != t.next && j != t.next {
        assert r[i] == t.rows[i] && r[j] == t.rows[j];
      }
    }
  }

  /** A new user whose e-mail clashes with none keeps the e-mails unique. */
  lemma EmailsStayUnique(t: Table<User>, u: User, lib: Library)
    requires UsersValid(t, lib) && u.id == t.next && CanCreate(t, u, lib)
    ensures var r := t.Insert(u).rows;
      forall i, j :: i in r && j in r && SameIgnoringCase(r[i].email, r[j].email) ==> i == j
  {
    var r := t.Insert(u).rows;
    assert t.next !in t.rows;
    forall i, j | i in r && j in r && SameIgnoringCase(r[i].email, r[j].email)
      ensures i == j
    {
      if i != t.next && j != t.next {
        assert r[i] == t.rows[i] && r[j] == t.rows[j];
      }
    }
  }

  /** The attributes `user_update_params` permits, each absent, null or given. */
  datatype ProfileChanges = ProfileChanges(bio: Param<string>, websiteUrl: Param<string>, avatarUrl: Param<string>)

  /**
   * `update(user_update_params)` on the row: only bio, website and avatar
   * change; an absent parameter keeps its column and a null clears it.
   */
  function ApplyProfile(u: User, ch: ProfileChanges): (v: User)
    ensures v.id == u.id && v.username == u.username && v.email == u.email && v.karmaScore == u.karmaScore
    ensures v.isActive == u.isActive && v.isVerified == u.isVerified && v.createdAt == u.createdAt
    ensures Applied(ch.bio, u.bio, v.bio)
    ensures Applied(ch.websiteUrl, u.websiteUrl, v.websiteUrl)
    ensures Applied(ch.avatarUrl, u.avatarUrl, v.avatarUrl)
  {
    u.(bio := ch.bio.Over(u.bio), websiteUrl := ch.websiteUrl.Over(u.websiteUrl), avatarUrl := ch.avatarUrl.Over(u.avatarUrl))
  }

  /** A table with the same keys, and rows whose validated columns are unchanged, is as valid. */
  lemma SameAccountsKeep(t: Table<User>, t': Table<User>, lib: Library)
    requires UsersValid(t, lib) && t'.next == t.next && t'.rows.Keys == t.rows.Keys
    requires forall k :: k in t.rows ==>
      && t'.rows[k].id == t.rows[k].id && t'.rows[k].username == t.rows[k].username
      && t'.rows[k].email == t.rows[k].email && t'.rows[k].karmaScore == t.rows[k].karmaScore
    ensures UsersValid(t', lib)
  {
    forall i, j | i in t'.rows && j in t'.rows && SameIgnoringCase(t'.rows[i].username, t'.rows[j].username)
      ensures i == j
    {
      assert SameIgnoringCase(t.rows[i].username, t.rows[j].username);
    }
    forall i, j | i in t'.rows && j in t'.rows && SameIgnoringCase(t'.rows[i].email, t'.rows[j].email)
      ensures i == j
    {
      assert SameIgnoringCase(t.rows[i].email, t.rows[j].email);
    }
  }

  /**
   * A profile update of a stored user always passes the validations (none
   * of them looks at the permitted fields) and keeps the table valid.
   */
  lemma ProfileUpdateKeeps(t: Table<User>, lib: Library, id: nat, ch: ProfileChanges)
    requires UsersValid(t, lib) && id in t.rows
    ensures UserFieldsValid(ApplyProfile(t.rows[id], ch)) && lib.isEmail(ApplyProfile(t.rows[id], ch).email)
    ensures UsersValid(t.Put(id, ApplyProfile(t.rows[id], ch)), lib)
  {
    SameAccountsKeep(t, t.Put(id, ApplyProfile(t.rows[id], ch)), lib);
  }
}
