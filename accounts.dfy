/** The decision logic of the user controller: registration validation, the
    one-way verification flag, login refusal, the field-wise profile update
    and the reset-token window. Password hashing, token signing and token
    hashing are opaque: a stored password is compared by equality, a
    verification token arrives already decoded to a user id, and a reset
    token arrives already hashed. */
module Accounts {
  import opened Common
  import opened Records

  // ---------------------------------------------------------------------
  // Text checks

  /** The characters JavaScript's `\s` and `String.prototype.trim` treat as
      white space. */
  predicate IsJsWhitespace(c: char)
  {
    c == '\t' || c == '\n' || c == '\U{000B}' || c == '\U{000C}' || c == '\r' || c == ' '
    || c == '\U{00A0}' || c == '\U{1680}' || ('\U{2000}' <= c <= '\U{200A}')
    || c == '\U{2028}' || c == '\U{2029}' || c == '\U{202F}' || c == '\U{205F}'
    || c == '\U{3000}' || c == '\U{FEFF}'
  }

  predicate IsBlank(s: string)
  {
    forall i :: 0 <= i < |s| ==> IsJsWhitespace(s[i])
  }

  /** `s` without its leading white space. */
  function TrimStart(s: string): (r: string)
    ensures r == [] || !IsJsWhitespace(r[0])
    ensures |r| <= |s| && r == s[|s| - |r|..]
    ensures IsBlank(s[..|s| - |r|])
  {
    if s != [] && IsJsWhitespace(s[0]) then TrimStart(s[1..]) else s
  }

  /** `s` without its trailing white space. */
  function TrimEnd(s: string): (r: string)
    ensures r == [] || !IsJsWhitespace(r[|r| - 1])
    ensures |r| <= |s| && r == s[..|r|]
    ensures IsBlank(s[|r|..])
  {
    if s != [] && IsJsWhitespace(s[|s| - 1]) then TrimEnd(s[..|s| - 1]) else s
  }

  /** `s.trim()`. */
  function Trim(s: string): string
  {
    TrimEnd(TrimStart(s))
  }

  /** A text trims to nothing exactly when it is all white space. */
  lemma TrimEmptyIffBlank(s: string)
    ensures Trim(s) == [] <==> IsBlank(s)
  {
    var a := TrimStart(s);
    if Trim(s) == [] {
      assert a[0..] == a;
      assert IsBlank(a);
      assert a == [];
      assert s[..|s|] == s;
    }
    if IsBlank(s) {
      BlankSuffix(s, a);
    }
  }

  lemma BlankSuffix(s: string, a: string)
    requires IsBlank(s) && |a| <= |s| && a == s[|s| - |a|..]
    ensures IsBlank(a)
  {
    forall i | 0 <= i < |a| ensures IsJsWhitespace(a[i]) {
      assert a[i] == s[|s| - |a| + i];
    }
  }

  /** One run of `[^\s@]+`: non-empty, no white space and no '@'. */
  predicate IsAtom(x: string)
  {
    x != [] && forall i :: 0 <= i < |x| ==> !IsJsWhitespace(x[i]) && x[i] != '@'
  }

  /** What `/^[^\s@]+@[^\s@]+\.[^\s@]+$/` accepts, read off its structure:
      three atoms joined by '@' and then '.'. */
  ghost predicate MatchesEmailPattern(s: string)
  {
    exists a, b, c :: IsAtom(a) && IsAtom(b) && IsAtom(c) && s == a + "@" + b + "." + c
  }

  /** The same test by positions: an '@' at `k` and a '.' at `d` cut the
      text into three atoms. */
  predicate IsEmailShaped(s: string)
  {
    exists k, d :: 0 < k && k + 1 < d < |s| - 1 && s[k] == '@' && s[d] == '.'
      && IsAtom(s[..k]) && IsAtom(s[k + 1..d]) && IsAtom(s[d + 1..])
  }

  /** Cutting a text at an '@' at `k` and a '.' at `d` and joining the
      three pieces back gives the text. */
  lemma CutJoin(s: string, k: nat, d: nat)
    requires k < d < |s| && s[k] == '@' && s[d] == '.'
    ensures s == s[..k] + "@" + s[k + 1..d] + "." + s[d + 1..]
  {
    assert s[k..] == "@" + s[k + 1..];
    assert s[k + 1..] == s[k + 1..d] + "." + s[d + 1..] by {
      assert s[k + 1..] == s[k + 1..d] + s[d..];
      assert s[d..] == "." + s[d + 1..];
    }
    assert s == s[..k] + s[k..];
  }

  /** The three atoms of a joined address are found again at the
      positions of its '@' and '.'. */
  lemma JoinCut(a: string, b: string, c: string)
    ensures var s := a + "@" + b + "." + c;
      && |s| == |a| + |b| + |c| + 2
      && s[|a|] == '@' && s[|a| + 1 + |b|] == '.'
      && s[..|a|] == a && s[|a| + 1..|a| + 1 + |b|] == b && s[|a| + 2 + |b|..] == c
  {
    var s := a + "@" + b + "." + c;
    var ab := a + "@" + b;
    assert s == ab + "." + c;
    assert ab[..|a|] == a && ab[|a| + 1..] == b;
    assert s[..|ab|] == ab && s[|ab| + 1..] == c;
  }

  /** Three atoms found by position form a match of the pattern. */
  lemma ShapedMatches(s: string, k: nat, d: nat)
    requires 0 < k && k + 1 < d < |s| - 1 && s[k] == '@' && s[d] == '.'
    requires IsAtom(s[..k]) && IsAtom(s[k + 1..d]) && IsAtom(s[d + 1..])
    ensures MatchesEmailPattern(s)
  {
    CutJoin(s, k, d);
    var a, b, c := s[..k], s[k + 1..d], s[d + 1..];
    assert IsAtom(a) && IsAtom(b) && IsAtom(c) && s == a + "@" + b + "." + c;
  }

  /** A match of the pattern is found by position. */
  lemma MatchesShaped(a: string, b: string, c: string)
    requires IsAtom(a) && IsAtom(b) && IsAtom(c)
    ensures IsEmailShaped(a + "@" + b + "." + c)
  {
    var s := a + "@" + b + "." + c;
    JoinCut(a, b, c);
    var k, d := |a|, |a| + 1 + |b|;
    assert 0 < k && k + 1 < d < |s| - 1 && s[k] == '@' && s[d] == '.';
    assert IsAtom(s[..k]) && IsAtom(s[k + 1..d]) && IsAtom(s[d + 1..]);
  }

  /** The positional test accepts exactly the texts the pattern matches. */
  lemma EmailShapeAgrees(s: string)
    ensures IsEmailShaped(s) <==> MatchesEmailPattern(s)
  {
    if IsEmailShaped(s) {
      var k, d :| 0 < k && k + 1 < d < |s| - 1 && s[k] == '@' && s[d] == '.'
        && IsAtom(s[..k]) && IsAtom(s[k + 1..d]) && IsAtom(s[d + 1..]);
      ShapedMatches(s, k, d);
    }
    if MatchesEmailPattern(s) {
      var a, b, c :| IsAtom(a) && IsAtom(b) && IsAtom(c) && s == a + "@" + b + "." + c;
      MatchesShaped(a, b, c);
    }
  }

  /** An address with white space, a second '@', or no '.' after the '@'
      is refused; a plain one is accepted. */
  lemma EmailShapeExamples()
    ensures IsEmailShaped("a@b.co")
    ensures !IsEmailShaped("a b@c.d")
    ensures !IsEmailShaped("a@b@c.d")
    ensures !IsEmailShaped("a@bc")
  {
    var s := "a@b.co";
    assert s[..1] == "a" && s[2..3] == "b" && s[4..] == "co";
    assert 0 < 1 && 1 + 1 < 3 < |s| - 1 && s[1] == '@' && s[3] == '.'
      && IsAtom(s[..1]) && IsAtom(s[2..3]) && IsAtom(s[4..]);
    assert " "[0] == ' ';
    var t := "a b@c.d";
    forall k, d | 0 < k && k + 1 < d < |t| - 1 && t[k] == '@' && t[d] == '.'
      ensures !IsAtom(t[..k])
    {
      assert k == 3;
      assert t[..k][1] == ' ';
    }
    var u := "a@b@c.d";
    forall k, d | 0 < k && k + 1 < d < |u| - 1 && u[k] == '@' && u[d] == '.'
      ensures !(IsAtom(u[..k]) && IsAtom(u[k + 1..d]))
    {
      if k == 1 {
        assert u[k + 1..d][1] == '@';
      } else {
        assert u[..k][1] == '@';
      }
    }
  }

  // ---------------------------------------------------------------------
  // Registration checks

  datatype FieldError = FieldError(field: string, message: string)

  const NameError: FieldError := FieldError("name", "Name is required")
  const EmailError: FieldError := FieldError("email", "Invalid email")
  const PasswordError: FieldError := FieldError("password", "Password must be 6+ characters")
  const ExistingEmailError: FieldError := FieldError("email", "User already exists")
  const ValidationFailed: string := "Validation failed"

  /** `!name || !name.trim()`. */
  predicate NameInvalid(name: Option<string>)
  {
    name.None? || Trim(name.value) == ""
  }

  /** `!email || !pattern.test(email)`. */
  predicate EmailInvalid(email: Option<string>)
  {
    email.None? || !IsEmailShaped(email.value)
  }

  /** `s.length` in JavaScript: UTF-16 code units, so a character beyond
      U+FFFF counts twice. */
  function JsLength(s: string): (n: nat)
    ensures |s| <= n <= 2 * |s|
  {
    if s == [] then 0 else (if s[0] as int >= 0x10000 then 2 else 1) + JsLength(s[1..])
  }

  /** Below U+10000 every character is one code unit. */
  lemma {:induction false} JsLengthBasic(s: string)
    requires forall i :: 0 <= i < |s| ==> s[i] as int < 0x10000
    ensures JsLength(s) == |s|
  {
    if s != [] {
      assert s[0] as int < 0x10000;
      JsLengthBasic(s[1..]);
    }
  }

  /** `!password || password.length < 6`. */
  predicate PasswordInvalid(password: Option<string>)
  {
    password.None? || JsLength(password.value) < 6
  }

  /** Three emoji are six code units: long enough, though only three
      characters. */
  lemma AstralPasswordLongEnough()
    ensures JsLength("\U{1F600}\U{1F600}\U{1F600}") == 6
    ensures !PasswordInvalid(Some("\U{1F600}\U{1F600}\U{1F600}"))
  {
    var s := "\U{1F600}\U{1F600}\U{1F600}";
    assert s[1..][1..][1..] == [];
  }

  /** Position of a check's error in the order the checks run. */
  function CheckOrder(e: FieldError): nat
  {
    if e == NameError then 0 else if e == EmailError then 1 else 2
  }

  /** The registration errors: one per failing check, in the order name,
      email, password, and nothing else. */
  function ValidationErrors(name: Option<string>, email: Option<string>, password: Option<string>)
    : (r: seq<FieldError>)
    ensures NameError in r <==> NameInvalid(name)
    ensures EmailError in r <==> EmailInvalid(email)
    ensures PasswordError in r <==> PasswordInvalid(password)
    ensures forall e :: e in r ==> e == NameError || e == EmailError || e == PasswordError
    ensures forall i, j :: 0 <= i < j < |r| ==> CheckOrder(r[i]) < CheckOrder(r[j])
  {
    (if NameInvalid(name) then [NameError] else [])
    + (if EmailInvalid(email) then [EmailError] else [])
    + (if PasswordInvalid(password) then [PasswordError] else [])
  }

  /** The validation block of `registerUser`: pushes each failing check's
      error onto the list in turn. */
  method CollectRegistrationErrors(name: Option<string>, email: Option<string>, password: Option<string>)
    returns (errors: seq<FieldError>)
    ensures errors == ValidationErrors(name, email, password)
  {
    errors := [];
    ghost var nameErrors := if NameInvalid(name) then [NameError] else [];
    ghost var emailErrors := if EmailInvalid(email) then [EmailError] else [];
    if NameInvalid(name) {
      errors := errors + [NameError];
    }
    assert errors == nameErrors;
    if EmailInvalid(email) {
      errors := errors + [EmailError];
    }
    assert errors == nameErrors + emailErrors;
    if PasswordInvalid(password) {
      errors := errors + [PasswordError];
    }
  }

  // ---------------------------------------------------------------------
  // User records and their transitions

  const LocalProvider: string := "local"
  /** `10 * 60 * 1000`: a reset token is good for ten minutes. */
  const ResetWindowMs: int := 600000

  datatype User = User(
    name: string,
    email: string,
    provider: string,
    password: string,
    image: Option<string>,
    cv: Option<string>,
    isVerified: bool,
    resetPasswordToken: Option<string>,
    resetPasswordExpires: Option<int>)

  /** `req.files?.x?.[0]?.filename || null`. */
  function UploadedName(f: Option<string>): (r: Option<string>)
    ensures Given(f) ==> r == f
    ensures !Given(f) ==> r.None?
  {
    if Given(f) then f else None
  }

  /** A registered user: local, unverified, without a reset token, with
      the uploaded image and CV names when given. */
  function NewUser(name: string, email: string, password: string,
                   image: Option<string>, cv: Option<string>): (u: User)
    ensures u.provider == LocalProvider && !u.isVerified
    ensures u.resetPasswordToken.None? && u.resetPasswordExpires.None?
    ensures u.name == name && u.email == email && u.password == password
    ensures u.image == UploadedName(image) && u.cv == UploadedName(cv)
  {
    User(name, email, LocalProvider, password, UploadedName(image), UploadedName(cv), false, None, None)
  }

  /** Verification sets the flag and nothing else. */
  function Verified(u: User): (r: User)
    ensures r.isVerified
    ensures r.(isVerified := u.isVerified) == u
  {
    u.(isVerified := true)
  }

  /** The profile after `if (name) …; if (email) …; if (password) …`. */
  function WithProfile(u: User, name: Option<string>, email: Option<string>, password: Option<string>)
    : (r: User)
    ensures r.name == (if Given(name) then name.value else u.name)
    ensures r.email == (if Given(email) then email.value else u.email)
    ensures r.password == (if Given(password) then password.value else u.password)
    ensures r.(name := u.name, email := u.email, password := u.password) == u
  {
    u.(name := if Given(name) then name.value else u.name,
       email := if Given(email) then email.value else u.email,
       password := if Given(password) then password.value else u.password)
  }

  /** Applying the same profile update twice is applying it once. */
  lemma WithProfileIdempotent(u: User, name: Option<string>, email: Option<string>, password: Option<string>)
    ensures WithProfile(WithProfile(u, name, email, password), name, email, password)
         == WithProfile(u, name, email, password)
  {
  }

  /** `forgotPassword`: records the hashed token, expiring ten minutes
      after `now`. */
  function WithResetToken(u: User, hashedToken: string, now: int): (r: User)
    ensures r.resetPasswordToken == Some(hashedToken)
    ensures r.resetPasswordExpires == Some(now + ResetWindowMs)
    ensures r.(resetPasswordToken := u.resetPasswordToken, resetPasswordExpires := u.resetPasswordExpires) == u
  {
    u.(resetPasswordToken := Some(hashedToken), resetPasswordExpires := Some(now + ResetWindowMs))
  }

  /** The query of `resetPassword`: the stored token is the hashed one and
      its expiry is strictly after `now`. */
  predicate TokenValid(u: User, hashedToken: string, now: int)
  {
    u.resetPasswordToken == Some(hashedToken)
    && u.resetPasswordExpires.Some? && u.resetPasswordExpires.value > now
  }

  /** A successful reset: new password, token and expiry cleared. */
  function WithNewPassword(u: User, password: string): (r: User)
    ensures r.password == password
    ensures r.resetPasswordToken.None? && r.resetPasswordExpires.None?
    ensures r.(password := u.password, resetPasswordToken := u.resetPasswordToken,
               resetPasswordExpires := u.resetPasswordExpires) == u
  {
    u.(password := password, resetPasswordToken := None, resetPasswordExpires := None)
  }

  /** A token issued at `issued` is accepted at `now` exactly when fewer
      than 600000 ms have passed (the expiry itself is already too late). */
  lemma ResetWindow(u: User, hashedToken: string, issued: int, now: int)
    ensures TokenValid(WithResetToken(u, hashedToken, issued), hashedToken, now)
        <==> now < issued + ResetWindowMs
  {
  }

  /** A token only opens one reset: afterwards no token is valid. */
  lemma ResetSingleUse(u: User, password: string, anyToken: string, now: int)
    ensures !TokenValid(WithNewPassword(u, password), anyToken, now)
  {
  }

  /** A token for another hash does not open a reset. */
  lemma ResetNeedsSameToken(u: User, issuedHash: string, otherHash: string, issued: int, now: int)
    requires otherHash != issuedHash
    ensures !TokenValid(WithResetToken(u, issuedHash, issued), otherHash, now)
  {
  }

  // ---------------------------------------------------------------------
  // Error messages

  const UserNotFound: string := "User not found"
  const AlreadyVerified: string := "Already verified"
  const InvalidCredentials: string := "Invalid credentials"
  const VerifyFirst: string := "Please verify your email first."
  const TokenExpiredOrInvalid: string := "Token expired or invalid"
  const ResetPasswordTooShort: string := "Password must be at least 6 characters"
  /** Prefix of the store's unique-index violation. */
  const DuplicateKey: string := "E11000 duplicate key error"
  /** Prefix of the schema validation failure (`minlength: 6` on the
      password, checked before the hashing hook runs). */
  const UserValidationFailed: string := "User validation failed"

  datatype Registration = Registered(id: UserId) | Rejected(msg: string, errors: seq<FieldError>)

  /** No two users share an email (the schema's unique index). */
  ghost predicate UniqueEmails(users: map<UserId, User>)
  {
    forall a, b :: a in users && b in users && users[a].email == users[b].email ==> a == b
  }

  /** Some user has this email. */
  ghost predicate EmailTaken(users: map<UserId, User>, email: string)
  {
    exists id :: id in users && users[id].email == email
  }

  /** Storing a user whose email no other stored user has keeps emails
      unique. */
  lemma PutKeepsUnique(users: map<UserId, User>, id: UserId, u: User)
    requires UniqueEmails(users)
    requires forall k :: k in users && k != id ==> users[k].email != u.email
    ensures UniqueEmails(users[id := u])
  {
  }

  // ---------------------------------------------------------------------
  // The user collection

  class Users {
    var users: map<UserId, User>
    /** Stand-in for the store's id generator. */
    var nextId: nat

    ghost predicate Valid()
      reads this
    {
      (forall id :: id in users ==> id < nextId) && UniqueEmails(users)
    }

    constructor ()
      ensures Valid() && users == map[]
    {
      users := map[];
      nextId := 0;
    }

    /** `User.findOne({ email })`. */
    method FindByEmail(email: string) returns (found: Option<UserId>)
      requires Valid()
      ensures found.Some? ==> found.value in users && users[found.value].email == email
      ensures found.None? <==> !EmailTaken(users, email)
    {
      if id :| id in users && users[id].email == email {
        found := Some(id);
      } else {
        found := None;
      }
    }

    /** `registerUser`: a request with failing checks is rejected with all
        their errors; an email already in use is rejected with "User already
        exists"; either way nothing is stored. Otherwise a new unverified
        local user is stored under a fresh id. */
    method RegisterUser(name: Option<string>, email: Option<string>, password: Option<string>,
                        image: Option<string>, cv: Option<string>) returns (r: Registration)
      requires Valid()
      modifies this
      ensures Valid()
      ensures ValidationErrors(name, email, password) != [] ==>
        r == Rejected(ValidationFailed, ValidationErrors(name, email, password)) && users == old(users)
      ensures ValidationErrors(name, email, password) == [] && EmailTaken(old(users), email.value) ==>
        r == Rejected(ValidationFailed, [ExistingEmailError]) && users == old(users)
      ensures ValidationErrors(name, email, password) == [] && !EmailTaken(old(users), email.value) ==>
        && r.Registered? && r.id !in old(users)
        && users == old(users)[r.id := NewUser(name.value, email.value, password.value, image, cv)]
    {
      var errors := CollectRegistrationErrors(name, email, password);
      if errors != [] {
        return Rejected(ValidationFailed, errors);
      }
      var existing := FindByEmail(email.value);
      if existing.Some? {
        return Rejected(ValidationFailed, [ExistingEmailError]);
      }
      var id := nextId;
      nextId := nextId + 1;
      PutKeepsUnique(users, id, NewUser(name.value, email.value, password.value, image, cv));
      users := users[id := NewUser(name.value, email.value, password.value, image, cv)];
      r := Registered(id);
    }

    /** `verifyEmail`, given the id the token decodes to: a missing user
        and an already verified one are errors; otherwise only the flag
        is set. A second verification therefore always fails. */
    method VerifyEmail(decodedId: UserId) returns (r: Result<()>)
      requires Valid()
      modifies this
      ensures Valid()
      ensures decodedId !in old(users) ==> r == Err(UserNotFound) && users == old(users)
      ensures decodedId in old(users) && old(users)[decodedId].isVerified ==>
        r == Err(AlreadyVerified) && users == old(users)
      ensures decodedId in old(users) && !old(users)[decodedId].isVerified ==>
        r.Ok? && users == old(users)[decodedId := Verified(old(users)[decodedId])]
    {
      if decodedId !in users {
        return Err(UserNotFound);
      }
      var u := users[decodedId];
      if u.isVerified {
        return Err(AlreadyVerified);
      }
      users := users[decodedId := Verified(u)];
      r := Ok(());
    }

    /** `loginUser`: succeeds exactly for the verified user with this email
        and password. The right password of an unverified user gets "Please
        verify your email first."; anything else "Invalid credentials". */
    method LoginUser(email: string, password: string) returns (r: Result<UserId>)
      requires Valid()
      ensures r.Ok? <==> exists id :: id in users && users[id].email == email
                                      && users[id].password == password && users[id].isVerified
      ensures r.Ok? ==> r.value in users && users[r.value].email == email
      ensures r == Err(VerifyFirst) <==>
        exists id :: id in users && users[id].email == email
                     && users[id].password == password && !users[id].isVerified
      ensures r.Err? ==> r.msg == VerifyFirst || r.msg == InvalidCredentials
    {
      var found := FindByEmail(email);
      if found.None? || users[found.value].password != password {
        return Err(InvalidCredentials);
      }
      if !users[found.value].isVerified {
        return Err(VerifyFirst);
      }
      r := Ok(found.value);
    }

    /** `updateUserProfile`: each of name, email and password that is given
        (present and non-empty) overwrites the stored one. The save then
        fails, changing nothing, when the new email belongs to another user
        or the new password is shorter than the schema's six characters. */
    method UpdateUserProfile(caller: UserId, name: Option<string>, email: Option<string>,
                             password: Option<string>) returns (r: Result<()>)
      requires Valid()
      modifies this
      ensures Valid()
      ensures caller !in old(users) ==> r == Err(UserNotFound) && users == old(users)
      ensures r.Err? ==> users == old(users)
      ensures (caller in old(users) && Given(email) && email.value != old(users)[caller].email
               && EmailTaken(old(users), email.value)) ==> r.Err?
      ensures caller in old(users) && Given(password) && JsLength(password.value) < 6 ==> r.Err?
      ensures r.Ok? <==>
        && caller in old(users)
        && !(Given(password) && JsLength(password.value) < 6)
        && !(Given(email) && email.value != old(users)[caller].email && EmailTaken(old(users), email.value))
      ensures r.Ok? ==>
        && caller in old(users)
        && users == old(users)[caller := WithProfile(old(users)[caller], name, email, password)]
    {
      if caller !in users {
        return Err(UserNotFound);
      }
      var u := WithProfile(users[caller], name, email, password);
      if Given(password) && JsLength(password.value) < 6 {
        return Err(UserValidationFailed);
      }
      if u.email != users[caller].email {
        var other := FindByEmail(u.email);
        if other.Some? {
          return Err(DuplicateKey);
        }
      }
      PutKeepsUnique(users, caller, u);
      users := users[caller := u];
      r := Ok(());
    }

    /** `forgotPassword`, given the hashed token: records it with an expiry
        of `now + 600000`; an unknown email is an error. */
    method ForgotPassword(email: string, now: int, hashedToken: string) returns (r: Result<UserId>)
      requires Valid()
      modifies this
      ensures Valid()
      ensures !EmailTaken(old(users), email) ==> r == Err(UserNotFound) && users == old(users)
      ensures EmailTaken(old(users), email) ==>
        && r.Ok? && r.value in old(users) && old(users)[r.value].email == email
        && users == old(users)[r.value := WithResetToken(old(users)[r.value], hashedToken, now)]
    {
      var found := FindByEmail(email);
      if found.None? {
        return Err(UserNotFound);
      }
      var id := found.value;
      users := users[id := WithResetToken(users[id], hashedToken, now)];
      r := Ok(id);
    }

    /** `resetPassword`, given the hashed token: with no user whose token
        matches and has not expired, "Token expired or invalid"; with a
        missing or short new password, "Password must be at least 6
        characters"; both change nothing. Otherwise the password is set and
        the token and expiry are cleared. */
    method ResetPassword(hashedToken: string, now: int, password: Option<string>) returns (r: Result<UserId>)
      requires Valid()
      modifies this
      ensures Valid()
      ensures r.Err? ==> users == old(users)
      ensures (forall id :: id in old(users) ==> !TokenValid(old(users)[id], hashedToken, now)) ==>
        r == Err(TokenExpiredOrInvalid)
      ensures ((exists id :: id in old(users) && TokenValid(old(users)[id], hashedToken, now))
               && PasswordInvalid(password)) ==> r == Err(ResetPasswordTooShort)
      ensures ((exists id :: id in old(users) && TokenValid(old(users)[id], hashedToken, now))
               && !PasswordInvalid(password)) ==> r.Ok?
      ensures r.Ok? ==>
        && r.value in old(users) && TokenValid(old(users)[r.value], hashedToken, now)
        && users == old(users)[r.value := WithNewPassword(old(users)[r.value], password.value)]
    {
      if id :| id in users && TokenValid(users[id], hashedToken, now) {
        if PasswordInvalid(password) {
          return Err(ResetPasswordTooShort);
        }
        users := users[id := WithNewPassword(users[id], password.value)];
        r := Ok(id);
      } else {
        r := Err(TokenExpiredOrInvalid);
      }
    }
  }
}
