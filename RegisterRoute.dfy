/** The registration route (app/api/auth/register/route.ts): an ordered chain of checks (blank
    fields, short password, e-mail already registered), then a new user stored with a trimmed name
    and a normalised e-mail, answered without its password. The store is a sequence of users;
    the password hash is a parameter. */
module RegisterRoute {
  import opened Wrappers
  import opened Records
  import Text
  import UserModel

  type User = UserModel.User

  const MinPasswordLength := 8

  /** The JSON body's three fields. */
  datatype RegisterRequest = RegisterRequest(name: Option<string>, email: Option<string>, password: Option<string>)

  /** A stored user as the 201 reply shows it: every field but `password`. */
  datatype SafeUser = SafeUser(
    id: Id, name: Option<string>, email: Option<string>, image: Option<string>,
    bio: string, location: string, joinedAt: int)

  /** The route's replies: 400 (blank field), 400 (short password), 409, 201 with the reply body
      and the store after the insert, 500. */
  datatype RegisterReply =
    | MissingFields
    | ShortPassword
    | EmailTaken
    | Registered(user: SafeUser, store: seq<User>)
    | ServerError

  /** `const { password: _, ...safeUser } = user.toObject()`. */
  function Strip(u: User): (s: SafeUser)
    ensures s.id == u.id && s.name == u.name && s.email == u.email && s.image == u.image
    ensures s.bio == u.bio && s.location == u.location && s.joinedAt == u.joinedAt
  {
    SafeUser(u.id, u.name, u.email, u.image, u.bio, u.location, u.joinedAt)
  }

  /** The reply body does not depend on the password in any way. */
  lemma StripForgetsPassword(u: User, p: Option<string>)
    ensures Strip(u.(password := p)) == Strip(u)
  {
  }

  /** `!name?.trim() || !email?.trim() || !password?.trim()` fails: every field is present and
      not blank. */
  predicate Complete(req: RegisterRequest) {
    && req.name.Some? && !Text.IsBlank(req.name.value)
    && req.email.Some? && !Text.IsBlank(req.email.value)
    && req.password.Some? && !Text.IsBlank(req.password.value)
  }

  /** Some stored user's e-mail equals `email` ignoring case: the `findOne` lookup with an
      anchored case-insensitive pattern, and also the unique index under its collation. */
  predicate Taken(store: seq<User>, email: string) {
    exists i :: 0 <= i < |store| && store[i].email.Some? && Text.SameIgnoringCase(store[i].email.value, email)
  }

  /** The user `User.create` stores for a checked request: trimmed name, normalised e-mail (the
      route's own normalisation, then the pre-save hook's, which changes nothing more). */
  function NewUser(req: RegisterRequest, newId: Id, hashedPassword: string, now: int): (u: User)
    requires Complete(req)
    ensures u.name == Some(Text.Trim(req.name.value)) && u.name.value != ""
    ensures u.email == Some(Text.NormalizeEmail(req.email.value)) && u.email.value != ""
    ensures u.password == Some(hashedPassword)
    ensures u.bio == "" && u.location == "" && u.image == None && u.joinedAt == now
  {
    var email := Text.NormalizeEmail(req.email.value);
    Text.NormalizeEmailIdempotent(req.email.value);
    NormalizedNotBlank(req.email.value);
    var created := UserModel.Create(newId, Some(Text.Trim(req.name.value)), Some(email), Some(hashedPassword), now);
    created.(email := UserModel.PreSaveEmail(created.email, true))
  }

  /** Lower-casing keeps white space where it is, so a non-blank address stays non-blank. */
  lemma NormalizedNotBlank(e: string)
    requires !Text.IsBlank(e)
    ensures Text.NormalizeEmail(e) != ""
  {
    Text.TrimToLower(e);
  }

  /** The schema accepts the new user exactly when the normalised address matches the pattern. */
  lemma NewUserValidIff(req: RegisterRequest, newId: Id, hashedPassword: string, now: int)
    requires Complete(req)
    ensures UserModel.Valid(NewUser(req, newId, hashedPassword, now)) <==> UserModel.IsEmail(Text.NormalizeEmail(req.email.value))
  {
  }

  /** `User.create` after the checks: the schema's validators, then the unique index. */
  function Insert(store: seq<User>, u: User): (r: RegisterReply)
    requires u.email.Some?
    ensures r.Registered? || r == ServerError
    ensures r.Registered? <==> UserModel.Valid(u) && !Taken(store, u.email.value)
    ensures r.Registered? ==> r.store == store + [u] && r.user == Strip(u)
  {
    if !UserModel.Valid(u) then ServerError
    else if Taken(store, u.email.value) then ServerError
    else Registered(Strip(u), store + [u])
  }

  /** The handler as written: the duplicate lookup uses the e-mail exactly as sent, while the
      stored address is trimmed. */
  function RegisterAsWritten(store: seq<User>, req: RegisterRequest, newId: Id, hashedPassword: string, now: int): (r: RegisterReply)
    ensures r == MissingFields <==> !Complete(req)
    ensures r == ShortPassword <==> Complete(req) && |req.password.value| < MinPasswordLength
    ensures r == EmailTaken <==>
      Complete(req) && |req.password.value| >= MinPasswordLength && Taken(store, req.email.value)
    ensures r == ServerError <==>
      && Complete(req) && |req.password.value| >= MinPasswordLength && !Taken(store, req.email.value)
      && (!UserModel.Valid(NewUser(req, newId, hashedPassword, now)) || Taken(store, Text.NormalizeEmail(req.email.value)))
    ensures r.Registered? ==>
      && !Taken(store, Text.NormalizeEmail(req.email.value))
      && r.user.name == Some(Text.Trim(req.name.value))
      && r.user.email == Some(Text.NormalizeEmail(req.email.value))
      && r.store == store + [NewUser(req, newId, hashedPassword, now)]
  {
    if !Complete(req) then MissingFields
    else if |req.password.value| < MinPasswordLength then ShortPassword
    else if Taken(store, req.email.value) then EmailTaken
    else
      Insert(store, NewUser(req, newId, hashedPassword, now))
  }

  /** The handler with the duplicate lookup on the trimmed address: the same chain, and the
      409 now catches every address the unique index would refuse. */
  function Register(store: seq<User>, req: RegisterRequest, newId: Id, hashedPassword: string, now: int): (r: RegisterReply)
    ensures r == MissingFields <==> !Complete(req)
    ensures r == ShortPassword <==> Complete(req) && |req.password.value| < MinPasswordLength
    ensures r == EmailTaken <==>
      Complete(req) && |req.password.value| >= MinPasswordLength && Taken(store, Text.Trim(req.email.value))
    ensures r == ServerError <==>
      && Complete(req) && |req.password.value| >= MinPasswordLength && !Taken(store, Text.Trim(req.email.value))
      && !UserModel.Valid(NewUser(req, newId, hashedPassword, now))
    ensures r.Registered? ==>
      && !Taken(store, Text.NormalizeEmail(req.email.value))
      && r.user.name == Some(Text.Trim(req.name.value))
      && r.user.email == Some(Text.NormalizeEmail(req.email.value))
      && r.store == store + [NewUser(req, newId, hashedPassword, now)]
  {
    if !Complete(req) then MissingFields
    else if |req.password.value| < MinPasswordLength then ShortPassword
    else if Taken(store, Text.Trim(req.email.value)) then EmailTaken
    else
      NormalizedUntaken(store, req.email.value);
      Insert(store, NewUser(req, newId, hashedPassword, now))
  }

  /** Looking up the trimmed address finds exactly the users the unique index compares with the
      normalised one. */
  lemma TakenTrimmedIffNormalized(store: seq<User>, email: string)
    ensures Taken(store, Text.Trim(email)) <==> Taken(store, Text.NormalizeEmail(email))
  {
    Text.TrimToLower(email);
    Text.ToLowerFacts(Text.Trim(email));
    assert Text.ToLower(Text.NormalizeEmail(email)) == Text.ToLower(Text.Trim(email));
  }

  /** An address whose trimmed form no stored user has is also free in the unique index. */
  lemma NormalizedUntaken(store: seq<User>, email: string)
    requires !Taken(store, Text.Trim(email))
    ensures !Taken(store, Text.NormalizeEmail(email))
  {
    TakenTrimmedIffNormalized(store, email);
  }

  /** Appending a user whose address no stored user has keeps the addresses unique. */
  lemma AppendKeepsUnique(store: seq<User>, u: User)
    requires UserModel.UniqueEmails(store)
    requires u.email.Some? && !Taken(store, u.email.value)
    ensures UserModel.UniqueEmails(store + [u])
  {
    var s := store + [u];
    forall i, j | 0 <= i < j < |s| && s[i].email.Some? && s[j].email.Some?
      ensures !Text.SameIgnoringCase(s[i].email.value, s[j].email.value)
    {
      if j == |store| {
        assert s[i] == store[i] && s[j] == u;
      } else {
        assert s[i] == store[i] && s[j] == store[j];
      }
    }
  }

  /** Registration, by either handler, keeps the store's e-mails unique ignoring case: the
      unique index refuses what the lookup misses. */
  lemma RegisterKeepsEmailsUnique(store: seq<User>, req: RegisterRequest, newId: Id, hashedPassword: string, now: int)
    requires UserModel.UniqueEmails(store)
    ensures var r := RegisterAsWritten(store, req, newId, hashedPassword, now);
            r.Registered? ==> UserModel.UniqueEmails(r.store)
    ensures var r := Register(store, req, newId, hashedPassword, now);
            r.Registered? ==> UserModel.UniqueEmails(r.store)
  {
    if RegisterAsWritten(store, req, newId, hashedPassword, now).Registered?
       || Register(store, req, newId, hashedPassword, now).Registered? {
      AppendKeepsUnique(store, NewUser(req, newId, hashedPassword, now));
    }
  }

  /** Registration, by either handler, stores the address in normalised form, so a store of
      normalised addresses stays one. */
  lemma RegisterKeepsEmailsNormalized(store: seq<User>, req: RegisterRequest, newId: Id, hashedPassword: string, now: int)
    requires NormalizedEmails(store)
    ensures var r := RegisterAsWritten(store, req, newId, hashedPassword, now);
            r.Registered? ==> NormalizedEmails(r.store)
    ensures var r := Register(store, req, newId, hashedPassword, now);
            r.Registered? ==> NormalizedEmails(r.store)
  {
    if Complete(req) {
      Text.NormalizeEmailIdempotent(req.email.value);
      AppendKeepsNormalized(store, NewUser(req, newId, hashedPassword, now));
    }
  }

  lemma AppendKeepsNormalized(store: seq<User>, u: User)
    requires NormalizedEmails(store)
    requires u.email.Some? ==> Text.NormalizeEmail(u.email.value) == u.email.value
    ensures NormalizedEmails(store + [u])
  {
    var s := store + [u];
    forall j | 0 <= j < |s| && s[j].email.Some?
      ensures Text.NormalizeEmail(s[j].email.value) == s[j].email.value
    {
      if j == |store| {
        assert s[j] == u;
      } else {
        assert s[j] == store[j];
      }
    }
  }

  /** The reply to a request, from either handler, never depends on the password hash beyond
      storing it. */
  lemma ReplyIgnoresHash(store: seq<User>, req: RegisterRequest, newId: Id, h1: string, h2: string, now: int)
    ensures var r1, r2 := RegisterAsWritten(store, req, newId, h1, now), RegisterAsWritten(store, req, newId, h2, now);
      (r1.Registered? <==> r2.Registered?) && (r1.Registered? ==> r1.user == r2.user)
    ensures var r1, r2 := Register(store, req, newId, h1, now), Register(store, req, newId, h2, now);
      (r1.Registered? <==> r2.Registered?) && (r1.Registered? ==> r1.user == r2.user)
  {
    if Complete(req) && |req.password.value| >= MinPasswordLength {
      var u1, u2 := NewUser(req, newId, h1, now), NewUser(req, newId, h2, now);
      NewUserIgnoresHash(req, newId, h1, h2, now);
      InsertIgnoresHash(store, u1, u2);
      if !Taken(store, req.email.value) {
        assert RegisterAsWritten(store, req, newId, h1, now) == Insert(store, u1);
        assert RegisterAsWritten(store, req, newId, h2, now) == Insert(store, u2);
      }
      if !Taken(store, Text.Trim(req.email.value)) {
        assert Register(store, req, newId, h1, now) == Insert(store, u1);
        assert Register(store, req, newId, h2, now) == Insert(store, u2);
      }
    }
  }

  /** Two new users built with different hashes are accepted alike and answered alike. */
  lemma NewUserIgnoresHash(req: RegisterRequest, newId: Id, h1: string, h2: string, now: int)
    requires Complete(req)
    ensures var u1, u2 := NewUser(req, newId, h1, now), NewUser(req, newId, h2, now);
      u1.email == u2.email && (UserModel.Valid(u1) <==> UserModel.Valid(u2)) && Strip(u1) == Strip(u2)
  {
    var u1, u2 := NewUser(req, newId, h1, now), NewUser(req, newId, h2, now);
    NewUserValidIff(req, newId, h1, now);
    NewUserValidIff(req, newId, h2, now);
    StripForgetsPassword(u1, Some(h2));
    assert u1.(password := Some(h2)) == u2;
  }

  /** Inserting two users that are accepted alike and answered alike gives the same reply body. */
  lemma InsertIgnoresHash(store: seq<User>, u1: User, u2: User)
    requires u1.email.Some? && u1.email == u2.email
    requires UserModel.Valid(u1) <==> UserModel.Valid(u2)
    requires Strip(u1) == Strip(u2)
    ensures Insert(store, u1).Registered? <==> Insert(store, u2).Registered?
    ensures Insert(store, u1).Registered? ==> Insert(store, u1).user == Insert(store, u2).user
  {
  }

  /** A leading space is trimmed away. */
  lemma TrimLeadingSpace(e: string)
    ensures Text.Trim(" " + e) == Text.Trim(e)
  {
    assert (" " + e)[1..] == e;
  }

  /** Every stored address is in the form the route and the pre-save hook store it in. */
  predicate NormalizedEmails(store: seq<User>) {
    forall j :: 0 <= j < |store| && store[j].email.Some? ==>
      Text.NormalizeEmail(store[j].email.value) == store[j].email.value
  }

  /** A normalised address does not start with white space, so it differs, ignoring case, from
      any address that does. */
  lemma NormalizedNotPadded(x: string, e: string)
    requires Text.NormalizeEmail(x) == x
    ensures !Text.SameIgnoringCase(x, " " + e)
  {
    var padded := Text.ToLower(" " + e);
    assert padded[0] == ' ';
    if x != [] {
      Text.TrimShape(Text.ToLower(x));
      assert !Text.IsSpace(x[0]);
      assert Text.ToLower(x)[0] == Text.LowerChar(x[0]);
    }
  }

  /** No normalised stored address equals, ignoring case, an address that starts with a space. */
  lemma PaddedNotTaken(store: seq<User>, e: string)
    requires NormalizedEmails(store)
    ensures !Taken(store, " " + e)
  {
    NoStoredAddressPadded(store, e);
  }

  lemma NoStoredAddressPadded(store: seq<User>, e: string)
    requires NormalizedEmails(store)
    ensures forall j :: 0 <= j < |store| && store[j].email.Some? ==>
      !Text.SameIgnoringCase(store[j].email.value, " " + e)
  {
    forall j | 0 <= j < |store| && store[j].email.Some?
      ensures !Text.SameIgnoringCase(store[j].email.value, " " + e)
    {
      NormalizedNotPadded(store[j].email.value, e);
    }
  }

  /** The discrepancy: when the store holds the normalised address `e` and a request sends the
      same address with a leading space, the lookup as written misses, the trimmed address then
      collides in the unique index and the route answers 500; with the lookup on the trimmed
      address it answers 409. (For example `e` = "a@x.co" and the request " a@x.co".) */
  lemma PaddedDuplicateGetsServerError(store: seq<User>, i: nat, req: RegisterRequest, newId: Id, hashedPassword: string, now: int)
    requires NormalizedEmails(store)
    requires i < |store| && store[i].email.Some?
    requires req.email == Some(" " + store[i].email.value)
    requires Complete(req) && |req.password.value| >= MinPasswordLength
    ensures RegisterAsWritten(store, req, newId, hashedPassword, now) == ServerError
    ensures Register(store, req, newId, hashedPassword, now) == EmailTaken
  {
    var e := store[i].email.value;
    PaddedNotTaken(store, e);
    TrimLeadingSpace(e);
    Text.TrimToLower(e);
    Text.ToLowerFacts(e);
    Text.TrimIdempotent(Text.ToLower(e));
    assert Text.Trim(e) == e;
    assert Text.SameIgnoringCase(store[i].email.value, Text.Trim(" " + e));
    TakenTrimmedIffNormalized(store, " " + e);
  }
}
