/** The User schema (models/User.ts): required fields, defaults, the e-mail pattern and the
    pre-save e-mail normalisation. */
module UserModel {
  import opened Wrappers
  import opened Records
  import Text

  // ----- the pattern ^\w+([\.-]?\w+)*@\w+([\.-]?\w+)*(\.\w{2,3})+$ as a grammar -----

  /** `\w` */
  predicate IsWordChar(c: char) {
    'a' <= c <= 'z' || 'A' <= c <= 'Z' || '0' <= c <= '9' || c == '_'
  }

  /** `\w+` */
  predicate WordRun(s: string) {
    |s| > 0 && forall i :: 0 <= i < |s| ==> IsWordChar(s[i])
  }

  /** `[\.-]?\w+` */
  predicate Piece(p: string) {
    WordRun(p) || (|p| > 0 && (p[0] == '.' || p[0] == '-') && WordRun(p[1..]))
  }

  /** `([\.-]?\w+)*` */
  predicate Pieces(s: string)
    decreases |s|
  {
    s == [] || exists k :: 0 < k <= |s| && Piece(s[..k]) && Pieces(s[k..])
  }

  /** `\w+([\.-]?\w+)*`: the local part, and the start of the domain. */
  predicate Segment(s: string) {
    exists k :: 0 < k <= |s| && WordRun(s[..k]) && Pieces(s[k..])
  }

  /** `\.\w{2,3}` */
  predicate TopLevel(g: string) {
    3 <= |g| <= 4 && g[0] == '.' && WordRun(g[1..])
  }

  /** `(\.\w{2,3})+` */
  predicate TopLevels(s: string)
    decreases |s|
  {
    exists k :: 0 < k <= |s| && TopLevel(s[..k]) && (k == |s| || TopLevels(s[k..]))
  }

  /** `\w+([\.-]?\w+)*(\.\w{2,3})+` */
  predicate Domain(s: string) {
    exists k :: 0 < k < |s| && Segment(s[..k]) && TopLevels(s[k..])
  }

  /** The whole anchored pattern of the `email` field's `match` validator. */
  predicate IsEmail(s: string) {
    exists k :: 0 <= k < |s| && s[k] == '@' && Segment(s[..k]) && Domain(s[k + 1..])
  }

  /** `s` ends in a dot followed by two or three word characters. */
  predicate EndsWithTopLevel(s: string) {
    || (|s| >= 3 && s[|s| - 3] == '.' && WordRun(s[|s| - 2..]))
    || (|s| >= 4 && s[|s| - 4] == '.' && WordRun(s[|s| - 3..]))
  }

  lemma {:induction false} PiecesShape(s: string)
    requires Pieces(s)
    ensures '@' !in s
    ensures s != [] ==> IsWordChar(s[|s| - 1])
    decreases |s|
  {
    if s != [] {
      var k :| 0 < k <= |s| && Piece(s[..k]) && Pieces(s[k..]);
      PiecesShape(s[k..]);
      assert s == s[..k] + s[k..];
      if k == |s| {
        assert s[..k] == s;
      }
    }
  }

  /** A segment holds no '@' and starts and ends with a word character. */
  lemma SegmentShape(s: string)
    requires Segment(s)
    ensures '@' !in s
    ensures |s| > 0 && IsWordChar(s[0]) && IsWordChar(s[|s| - 1])
  {
    var k :| 0 < k <= |s| && WordRun(s[..k]) && Pieces(s[k..]);
    PiecesShape(s[k..]);
    assert s == s[..k] + s[k..];
    assert s[0] == s[..k][0];
    if k == |s| {
      assert s[..k] == s;
    }
  }

  /** Top-level groups hold no '@'. */
  lemma {:induction false} TopLevelsNoAt(s: string)
    requires TopLevels(s)
    ensures '@' !in s
    decreases |s|
  {
    var k :| 0 < k <= |s| && TopLevel(s[..k]) && (k == |s| || TopLevels(s[k..]));
    assert '@' !in s[..k];
    if k < |s| {
      TopLevelsNoAt(s[k..]);
      assert s == s[..k] + s[k..];
    } else {
      assert s[..k] == s;
    }
  }

  /** A run of top-level groups ends the way its last group does. */
  lemma {:induction false} TopLevelsEnd(s: string)
    requires TopLevels(s)
    ensures EndsWithTopLevel(s)
    decreases |s|
  {
    var k :| 0 < k <= |s| && TopLevel(s[..k]) && (k == |s| || TopLevels(s[k..]));
    if k == |s| {
      assert s[..k] == s;
    } else {
      var t := s[k..];
      TopLevelsEnd(t);
      EndsLikeSuffix(s, k);
    }
  }

  /** A string ends with a top-level group when one of its suffixes does. */
  lemma EndsLikeSuffix(s: string, k: nat)
    requires k <= |s| && EndsWithTopLevel(s[k..])
    ensures EndsWithTopLevel(s)
  {
    var t := s[k..];
    if |t| >= 3 && t[|t| - 3] == '.' && WordRun(t[|t| - 2..]) {
      assert s[|s| - 3] == t[|t| - 3];
      assert s[|s| - 2..] == t[|t| - 2..];
    } else {
      assert s[|s| - 4] == t[|t| - 4];
      assert s[|s| - 3..] == t[|t| - 3..];
    }
  }

  /** A domain holds no '@'. */
  lemma DomainNoAt(d: string)
    requires Domain(d)
    ensures '@' !in d
  {
    var j :| 0 < j < |d| && Segment(d[..j]) && TopLevels(d[j..]);
    SegmentShape(d[..j]);
    TopLevelsNoAt(d[j..]);
    assert d == d[..j] + d[j..];
  }

  /** The '@' the pattern's split point names is the only one in the address. */
  lemma OneAt(s: string, k: nat)
    requires k < |s| && s[k] == '@' && Segment(s[..k]) && Domain(s[k + 1..])
    ensures forall j :: 0 <= j < |s| && s[j] == '@' ==> j == k
  {
    SegmentShape(s[..k]);
    DomainNoAt(s[k + 1..]);
    forall j | 0 <= j < |s| && j != k ensures s[j] != '@' {
      if j < k {
        assert s[j] == s[..k][j];
      } else {
        assert s[j] == s[k + 1..][j - k - 1];
      }
    }
  }

  /** A domain ends the way its last top-level group does. */
  lemma DomainEnd(d: string)
    requires Domain(d)
    ensures EndsWithTopLevel(d)
  {
    var j :| 0 < j < |d| && Segment(d[..j]) && TopLevels(d[j..]);
    TopLevelsEnd(d[j..]);
    EndsLikeSuffix(d, j);
  }

  /** An address the pattern accepts has exactly one '@' and ends in a dot followed by two or
      three word characters. */
  lemma EmailShape(s: string)
    requires IsEmail(s)
    ensures exists k :: 0 <= k < |s| && s[k] == '@' && forall j :: 0 <= j < |s| && s[j] == '@' ==> j == k
    ensures EndsWithTopLevel(s)
  {
    var k :| 0 <= k < |s| && s[k] == '@' && Segment(s[..k]) && Domain(s[k + 1..]);
    OneAt(s, k);
    DomainEnd(s[k + 1..]);
    EndsLikeSuffix(s, k + 1);
  }

  /** A run of word characters is a segment. */
  lemma WordRunIsSegment(w: string)
    requires WordRun(w)
    ensures Segment(w)
  {
    assert w[..|w|] == w;
    assert Pieces(w[|w|..]);
  }

  /** Two segments joined by '@' with one top-level group appended form an address the pattern
      accepts. */
  lemma EmailFromParts(local: string, host: string, tld: string)
    requires Segment(local) && Segment(host) && TopLevel(tld)
    ensures IsEmail(local + "@" + host + tld)
  {
    var s := local + "@" + host + tld;
    var d := host + tld;
    assert tld[..|tld|] == tld;
    assert TopLevels(tld);
    assert d[..|host|] == host && d[|host|..] == tld;
    assert Domain(d);
    var k := |local|;
    assert s[..k] == local && s[k] == '@' && s[k + 1..] == d;
  }

  /** The pattern accepts an ordinary address. */
  lemma AcceptsOrdinaryAddress()
    ensures IsEmail("jo@mail.com")
  {
    calc {
      IsEmail("jo@mail.com");
      { assert "jo" + "@" + "mail" + ".com" == "jo@mail.com"; }
      IsEmail("jo" + "@" + "mail" + ".com");
      <== { EmailFromParts("jo", "mail", ".com"); }
      Segment("jo") && Segment("mail") && TopLevel(".com");
      <== { WordRunIsSegment("jo"); WordRunIsSegment("mail"); }
      WordRun("jo") && WordRun("mail") && TopLevel(".com");
      { assert ".com"[1..] == "com"; }
      WordRun("jo") && WordRun("mail") && WordRun("com");
    }
  }

  // ----- the stored document -----

  /** A user document as stored. `password` holds the bcrypt hash. */
  datatype User = User(
    id: Id,
    name: Option<string>,
    email: Option<string>,
    password: Option<string>,
    image: Option<string>,
    bio: string,
    location: string,
    joinedAt: int)

  /** The schema's validators: `name` and `email` are required and `email` matches the pattern. */
  predicate Valid(u: User) {
    Present(u.name) && Present(u.email) && IsEmail(u.email.value)
  }

  /** A new document as the schema's defaults complete it: empty `bio` and `location`,
      `joinedAt` now, no image. */
  function Create(id: Id, name: Option<string>, email: Option<string>, password: Option<string>, now: int): (u: User)
    ensures u.bio == "" && u.location == "" && u.joinedAt == now && u.image == None
    ensures u.name == name && u.email == email && u.password == password
  {
    User(id, name, email, password, None, "", "", now)
  }

  /** The unique index on `email` under the collection's case-insensitive collation:
      no two stored users have e-mails that differ only in case. */
  predicate UniqueEmails(users: seq<User>) {
    forall i, j :: 0 <= i < j < |users| && users[i].email.Some? && users[j].email.Some?
      ==> !Text.SameIgnoringCase(users[i].email.value, users[j].email.value)
  }

  /** What the pre-save hook leaves in `email`: normalised when modified, untouched otherwise. */
  function PreSaveEmail(email: Option<string>, modified: bool): (r: Option<string>)
    ensures r.Some? <==> email.Some?
    ensures !modified ==> r == email
  {
    if modified && email.Some? then Some(Text.NormalizeEmail(email.value)) else email
  }

  /** Running the hook on a document it has already normalised leaves the address as it is. */
  lemma PreSaveEmailIdempotent(email: Option<string>, modified: bool)
    ensures PreSaveEmail(PreSaveEmail(email, modified), modified) == PreSaveEmail(email, modified)
  {
    if modified && email.Some? {
      Text.NormalizeEmailIdempotent(email.value);
    }
  }

  /** A Mongoose document of the User model, with the dirty flag its pre-save hook consults. */
  class UserDocument {
    var id: Id
    var name: Option<string>
    var email: Option<string>
    var password: Option<string>
    var image: Option<string>
    var bio: string
    var location: string
    var joinedAt: int
    var emailModified: bool

    /** The stored value this document denotes. */
    function Value(): User
      reads this
    {
      User(id, name, email, password, image, bio, location, joinedAt)
    }

    /** `new User({ name, email, password })`: defaults filled in, and a newly set `email` is modified. */
    constructor (id: Id, name: Option<string>, email: Option<string>, password: Option<string>, now: int)
      ensures Value() == Create(id, name, email, password, now)
      ensures emailModified == email.Some?
    {
      this.id := id;
      this.name := name;
      this.email := email;
      this.password := password;
      this.image := None;
      this.bio := "";
      this.location := "";
      this.joinedAt := now;
      this.emailModified := email.Some?;
    }

    /** The `pre('save')` hook: lower-case and trim a modified e-mail in place. */
    method PreSave()
      modifies this`email
      ensures email == PreSaveEmail(old(email), emailModified)
      ensures Value() == old(Value()).(email := email)
    {
      if emailModified && email.Some? {
        email := Some(Text.Trim(Text.ToLower(email.value)));
      }
    }
  }
}
