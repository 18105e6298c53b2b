/** The user controller: reading users and the profile update, which merges
    trimmed text fields into the stored record and optionally changes the
    password. The credential hasher is a parameter `hash`, and comparing a
    password with a stored hash means hashing it and checking equality (no
    salt), so a password always matches its own hash. */
module Users {
  import opened Common
  import Text

  type UserId = string

  /** A stored user document. `password` holds the password's hash. */
  datatype User = User(
    username: string,
    name: string,
    bio: string,
    email: string,
    password: string,
    picturePath: string)

  /** The body of a profile update. A field the client leaves out is `None`. */
  datatype ProfileForm = ProfileForm(
    name: Option<string>,
    username: Option<string>,
    email: Option<string>,
    bio: Option<string>,
    oldPassword: Option<string>,
    newPassword: Option<string>,
    confirmPassword: Option<string>)

  const InvalidOldPassword := "Invalid Old Password. "
  const PasswordsDiffer := "Old password not same to new password"
  const AlreadyExists := "Email or Username Already Exists!"

  /** `bcrypt.compare(plain, stored)`. */
  predicate PasswordMatches(hash: string -> string, plain: string, stored: string)
  {
    hash(plain) == stored
  }

  /** A JavaScript string field is truthy when it is present and non-empty. */
  predicate Truthy(v: Option<string>)
  {
    v.Some? && v.value != ""
  }

  /** `input.trim() || stored`: the trimmed input, unless it trims to nothing. */
  function MergeField(stored: string, input: string): (r: string)
    ensures r == Text.Trim(input) || r == stored
    ensures r == "" ==> stored == ""
  {
    var t := Text.Trim(input);
    if t != "" then t else stored
  }

  /** A blank input keeps the stored value; any other input is replaced by
      its trimmed form, which is non-empty and starts and ends with a
      non-whitespace character. */
  lemma MergeFieldMeaning(stored: string, input: string)
    ensures Text.Blank(input) ==> MergeField(stored, input) == stored
    ensures !Text.Blank(input) ==>
      var r := MergeField(stored, input);
      && r == Text.Trim(input) && r != ""
      && !Text.IsJsWhitespace(r[0]) && !Text.IsJsWhitespace(r[|r| - 1])
  {
    Text.TrimEmptyIffBlank(input);
    Text.TrimEndsNonBlank(input);
  }

  /** What the handler decides for a found user: save this record, or answer
      with an error status and message before saving. */
  datatype Decision = Save(user: User) | Reject(status: int, message: string)

  /** All four text fields are present in the form. */
  predicate HasTextFields(f: ProfileForm)
  {
    f.username.Some? && f.name.Some? && f.bio.Some? && f.email.Some?
  }

  /** The stored record with the form's four text fields merged into it. */
  function MergeProfile(u: User, f: ProfileForm): User
    requires HasTextFields(f)
  {
    u.(username := MergeField(u.username, f.username.value),
       name := MergeField(u.name, f.name.value),
       bio := MergeField(u.bio, f.bio.value),
       email := MergeField(u.email, f.email.value))
  }

  /** The update's decision for the stored record `u`. Calling `trim` on a
      missing field throws, and so does hashing a missing confirmation; the
      catch answers both with 404. */
  function Decide(u: User, f: ProfileForm, hash: string -> string): (d: Decision)
    ensures d.Reject? ==> d.status == 400 || d.status == 404
    ensures d.Save? ==> HasTextFields(f) && d.user.picturePath == u.picturePath
    ensures d.Save? && d.user.password != u.password ==>
      Truthy(f.oldPassword) && PasswordMatches(hash, f.oldPassword.value, u.password)
  {
    if !HasTextFields(f) then Reject(404, AlreadyExists)
    else if !Truthy(f.oldPassword) then Save(MergeProfile(u, f))
    else if !PasswordMatches(hash, f.oldPassword.value, u.password) then Reject(400, InvalidOldPassword)
    else if f.newPassword != f.confirmPassword then Reject(400, PasswordsDiffer)
    else if f.confirmPassword.None? then Reject(404, AlreadyExists)
    else Save(MergeProfile(u, f).(password := hash(f.confirmPassword.value)))
  }

  /** A saved record holds, for each text field, the trimmed input when that
      is non-empty and the stored value otherwise; the picture path is kept. */
  lemma SavedFieldsMerged(u: User, f: ProfileForm, hash: string -> string)
    requires Decide(u, f, hash).Save?
    ensures HasTextFields(f)
    ensures var s := Decide(u, f, hash).user;
      && s.username == (if Text.Trim(f.username.value) != "" then Text.Trim(f.username.value) else u.username)
      && s.name == (if Text.Trim(f.name.value) != "" then Text.Trim(f.name.value) else u.name)
      && s.bio == (if Text.Trim(f.bio.value) != "" then Text.Trim(f.bio.value) else u.bio)
      && s.email == (if Text.Trim(f.email.value) != "" then Text.Trim(f.email.value) else u.email)
      && s.picturePath == u.picturePath
  {
    var s := Decide(u, f, hash).user;
    var merged := MergeProfile(u, f);
    assert s == merged || s == merged.(password := s.password);
    assert s.username == merged.username && s.name == merged.name;
    assert s.bio == merged.bio && s.email == merged.email;
  }

  /** Without a truthy old password the stored hash is kept. */
  lemma PasswordKeptWithoutOldPassword(u: User, f: ProfileForm, hash: string -> string)
    requires HasTextFields(f) && !Truthy(f.oldPassword)
    ensures Decide(u, f, hash).Save? && Decide(u, f, hash).user.password == u.password
  {
  }

  /** A wrong old password is answered with 400 and nothing is saved. */
  lemma WrongOldPasswordRejected(u: User, f: ProfileForm, hash: string -> string)
    requires HasTextFields(f) && Truthy(f.oldPassword)
    requires !PasswordMatches(hash, f.oldPassword.value, u.password)
    ensures Decide(u, f, hash) == Reject(400, InvalidOldPassword)
  {
  }

  /** A matching old password and an equal confirmation store the new hash,
      which the new password then matches. */
  lemma PasswordChanged(u: User, f: ProfileForm, hash: string -> string, p: string)
    requires HasTextFields(f) && Truthy(f.oldPassword)
    requires PasswordMatches(hash, f.oldPassword.value, u.password)
    requires f.newPassword == Some(p) && f.confirmPassword == Some(p)
    ensures Decide(u, f, hash).Save?
    ensures Decide(u, f, hash).user.password == hash(p)
    ensures PasswordMatches(hash, p, Decide(u, f, hash).user.password)
  {
  }

  /** A matching old password with a differing confirmation is answered with 400. */
  lemma MismatchedConfirmationRejected(u: User, f: ProfileForm, hash: string -> string)
    requires HasTextFields(f) && Truthy(f.oldPassword)
    requires PasswordMatches(hash, f.oldPassword.value, u.password)
    requires f.newPassword != f.confirmPassword
    ensures Decide(u, f, hash) == Reject(400, PasswordsDiffer)
  {
  }

  /** Blank text fields and no password change leave the record as it was. */
  lemma BlankFormKeepsUser(u: User, f: ProfileForm, hash: string -> string)
    requires HasTextFields(f) && !Truthy(f.oldPassword)
    requires Text.Blank(f.username.value) && Text.Blank(f.name.value)
    requires Text.Blank(f.bio.value) && Text.Blank(f.email.value)
    ensures Decide(u, f, hash) == Save(u)
  {
  }

  /** Applying the same profile edit (no password change) a second time
      changes nothing more. */
  lemma ProfileEditIdempotent(u: User, f: ProfileForm, hash: string -> string)
    requires HasTextFields(f) && !Truthy(f.oldPassword)
    ensures var once := Decide(u, f, hash).user;
      Decide(once, f, hash) == Save(once)
  {
  }

  /** No two stored users share a username or an e-mail address. */
  ghost predicate Unique(users: map<UserId, User>)
  {
    forall a, b :: a in users && b in users && a != b ==>
      users[a].username != users[b].username && users[a].email != users[b].email
  }

  /** Saving `u` under `id` would break the store's uniqueness of usernames and e-mails. */
  predicate Conflicts(users: map<UserId, User>, id: UserId, u: User)
  {
    exists k :: k in users && k != id && (users[k].username == u.username || users[k].email == u.email)
  }

  /** Saving a record that does not conflict keeps usernames and e-mails unique. */
  lemma SaveKeepsUnique(users: map<UserId, User>, id: UserId, u: User)
    requires Unique(users) && !Conflicts(users, id, u)
    ensures Unique(users[id := u])
  {
    var after := users[id := u];
    forall a, b | a in after && b in after && a != b
      ensures after[a].username != after[b].username && after[a].email != after[b].email
    {
      if a == id {
        assert !(users[b].username == u.username || users[b].email == u.email);
      } else if b == id {
        assert !(users[a].username == u.username || users[a].email == u.email);
      }
    }
  }

  class UserStore {
    var users: map<UserId, User>
    /** The collection's natural order, in which `find` returns documents. */
    var order: seq<UserId>

    ghost predicate Valid()
      reads this
    {
      && (forall i :: 0 <= i < |order| ==> order[i] in users)
      && (forall id :: id in users ==> id in order)
      && (forall i, j :: 0 <= i < j < |order| ==> order[i] != order[j])
      && Unique(users)
    }

    constructor ()
      ensures Valid() && users == map[] && order == []
    {
      users := map[];
      order := [];
    }

    /** `getUser`: 200 with the user, or with nothing when the id is unknown. */
    function GetUser(id: UserId): (r: Reply<Option<User>>)
      reads this
      ensures r.Ok? && r.status == 200
      ensures r.value.Some? <==> id in users
      ensures r.value.Some? ==> r.value.value == users[id]
    {
      Ok(200, if id in users then Some(users[id]) else None)
    }

    /** `getUsers`: 200 with every user in natural order. */
    function GetUsers(): (r: Reply<seq<User>>)
      reads this
      requires Valid()
      ensures r.Ok? && r.status == 200 && |r.value| == |order|
      ensures forall u :: u in r.value <==> exists id :: id in users && users[id] == u
    {
      var all := Collect(order, users);
      assert forall id :: id in users ==> users[id] in all by {
        forall id | id in users ensures users[id] in all {
          var i :| 0 <= i < |order| && order[i] == id;
          assert all[i] == users[id];
        }
      }
      Ok(200, all)
    }

    /** `updateUser`. An unknown id gets no response at all. Otherwise the
        text fields are merged one by one, the password is changed when an
        old password is given, and the record is saved; every early return
        and every throw leaves the store as it was. */
    method UpdateUser(id: UserId, form: ProfileForm, hash: string -> string) returns (reply: Reply<User>)
      requires Valid()
      modifies this
      ensures Valid() && order == old(order)
      ensures id !in old(users) ==> reply == Silent && users == old(users)
      ensures id in old(users) ==>
        match Decide(old(users)[id], form, hash)
        case Reject(code, msg) =>
          reply == Err(code, Message(msg)) && users == old(users)
        case Save(u) =>
          if Conflicts(old(users), id, u) then
            reply == Err(404, Message(AlreadyExists)) && users == old(users)
          else
            reply == Ok(200, u) && users == old(users)[id := u]
    {
      if id !in users {
        return Silent;
      }
      var user := users[id];
      if form.username.None? || form.name.None? || form.bio.None? || form.email.None? {
        return Err(404, Message(AlreadyExists));
      }
      user := user.(username := MergeField(user.username, form.username.value));
      user := user.(name := MergeField(user.name, form.name.value));
      user := user.(bio := MergeField(user.bio, form.bio.value));
      user := user.(email := MergeField(user.email, form.email.value));
      assert user == MergeProfile(users[id], form);
      if Truthy(form.oldPassword) {
        var isMatch := PasswordMatches(hash, form.oldPassword.value, user.password);
        if !isMatch {
          return Err(400, Message(InvalidOldPassword));
        }
        if form.newPassword == form.confirmPassword {
          if form.confirmPassword.None? {
            return Err(404, Message(AlreadyExists));
          }
          user := user.(password := hash(form.confirmPassword.value));
        } else {
          return Err(400, Message(PasswordsDiffer));
        }
      }
      if Conflicts(users, id, user) {
        return Err(404, Message(AlreadyExists));
      }
      SaveKeepsUnique(users, id, user);
      users := users[id := user];
      reply := Ok(200, user);
    }
  }
}
