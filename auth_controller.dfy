/**
 * The authentication handlers as transitions on the user collection. Each handler finds a user by
 * email, guards, assigns `isVerified`, `otp` or `refreshToken` and saves; it answers with an HTTP
 * status. The collaborators the handlers cannot see are parameters: `code` is the code
 * `generateOTP` draws, `now` the clock, `minted` the pair `generateAccessToken` and
 * `generateRefreshToken` sign, and `comparePassword` the bcrypt comparison. Sending the OTP mail
 * does nothing here.
 */
module AuthController {
  import opened Common
  import opened UserModel
  import opened Database

  /**
   * `generateAccessAndRefereshTokens(userId)`: fails when the user does not exist; otherwise
   * returns the minted pair and stores its refresh token, overwriting any earlier one.
   */
  method IssueTokens(db: Store, userId: Id, minted: TokenPair) returns (tokens: Option<TokenPair>)
    requires db.Valid()
    modifies db`users
    ensures db.Valid()
    ensures userId !in old(db.users) ==> tokens == None && db.users == old(db.users)
    ensures userId in old(db.users) ==>
      && tokens == Some(minted)
      && db.users == old(db.users)[userId := old(db.users)[userId].(refreshToken := Some(minted.refreshToken))]
  {
    if userId !in db.users {
      return None;
    }
    var user := db.users[userId];
    user := user.(refreshToken := Some(minted.refreshToken));
    db.users := db.users[userId := user];
    tokens := Some(minted);
  }

  /**
   * `signup`: `User.create` fails (400) without an email or password or when the email is taken;
   * otherwise the new user is stored unverified with a fresh OTP and the new refresh token, and
   * the answer is 201 with the tokens.
   */
  method Signup(db: Store, newId: Id, email: string, password: string, code: string, now: int, minted: TokenPair)
    returns (status: int, tokens: Option<TokenPair>)
    requires db.Valid()
    requires newId !in db.users
    modifies db`users
    ensures db.Valid()
    ensures VerifiedKept(old(db.users), db.users)
    ensures status == StatusCreated || status == StatusBadRequest
    ensures status == StatusBadRequest <==> email == "" || password == "" || FindByEmail(old(db.users), email).Some?
    ensures status == StatusBadRequest ==> tokens == None && db.users == old(db.users)
    ensures status == StatusCreated ==>
      && tokens == Some(minted)
      && db.users == old(db.users)[newId := User(email, password, false, Some(Otp(code, now + OtpLifetimeMs)), Some(minted.refreshToken))]
      && !db.users[newId].isVerified
      && OtpAccepts(db.users[newId], code, now)
  {
    if email == "" || password == "" || FindByEmail(db.users, email).Some? {
      return StatusBadRequest, None;
    }
    var user := User(email, password, false, None, None);
    db.users := db.users[newId := user];
    user := WithFreshOtp(user, code, now);
    db.users := db.users[newId := user];
    tokens := IssueTokens(db, newId, minted);
    status := StatusCreated;
  }

  /**
   * `verifyOTP`: an unknown email or a code the user's OTP does not accept gives 400 and changes
   * nothing; otherwise the user becomes verified, the OTP is cleared and new tokens are issued.
   */
  method VerifyOtp(db: Store, email: string, otp: string, now: int, minted: TokenPair)
    returns (status: int, tokens: Option<TokenPair>)
    requires db.Valid()
    modifies db`users
    ensures db.Valid()
    ensures VerifiedKept(old(db.users), db.users)
    ensures match FindByEmail(old(db.users), email)
      case None => status == StatusBadRequest && tokens == None && db.users == old(db.users)
      case Some(id) =>
        if OtpAccepts(old(db.users)[id], otp, now) then
          && status == StatusOk
          && tokens == Some(minted)
          && db.users == old(db.users)[id := old(db.users)[id].(isVerified := true, otp := None, refreshToken := Some(minted.refreshToken))]
        else
          status == StatusBadRequest && tokens == None && db.users == old(db.users)
  {
    var found := FindByEmail(db.users, email);
    if found.None? || !OtpAccepts(db.users[found.value], otp, now) {
      return StatusBadRequest, None;
    }
    var id := found.value;
    var user := db.users[id];
    user := user.(isVerified := true);
    user := WithoutOtp(user);
    db.users := db.users[id := user];
    tokens := IssueTokens(db, id, minted);
    status := StatusOk;
  }

  /**
   * `resendOTP`: an unknown email gives 404, an already verified user 400 with its OTP untouched;
   * otherwise a fresh OTP replaces the stored one.
   */
  method ResendOtp(db: Store, email: string, code: string, now: int) returns (status: int)
    requires db.Valid()
    modifies db`users
    ensures db.Valid()
    ensures VerifiedKept(old(db.users), db.users)
    ensures match FindByEmail(old(db.users), email)
      case None => status == StatusNotFound && db.users == old(db.users)
      case Some(id) =>
        if old(db.users)[id].isVerified then
          status == StatusBadRequest && db.users == old(db.users)
        else
          status == StatusOk && db.users == old(db.users)[id := WithFreshOtp(old(db.users)[id], code, now)]
  {
    var found := FindByEmail(db.users, email);
    if found.None? {
      return StatusNotFound;
    }
    var id := found.value;
    var user := db.users[id];
    if user.isVerified {
      return StatusBadRequest;
    }
    user := WithFreshOtp(user, code, now);
    db.users := db.users[id := user];
    status := StatusOk;
  }

  /**
   * `login`: a missing email or password gives 400; an unknown email or a wrong password 401; in
   * all three nothing changes. An unverified user with the right password gets a fresh OTP and
   * `requiresVerification`, with no tokens and the refresh token left alone; a verified one gets
   * new tokens.
   */
  method Login(db: Store, email: string, password: string, comparePassword: (User, string) -> bool,
               code: string, now: int, minted: TokenPair)
    returns (status: int, requiresVerification: bool, tokens: Option<TokenPair>)
    requires db.Valid()
    modifies db`users
    ensures db.Valid()
    ensures VerifiedKept(old(db.users), db.users)
    ensures status != StatusOk ==> !requiresVerification && tokens == None && db.users == old(db.users)
    ensures email == "" || password == "" ==> status == StatusBadRequest
    ensures email != "" && password != "" ==>
      match FindByEmail(old(db.users), email)
      case None => status == StatusUnauthorized
      case Some(id) =>
        var u := old(db.users)[id];
        if !comparePassword(u, password) then
          status == StatusUnauthorized
        else if !u.isVerified then
          && status == StatusOk && requiresVerification && tokens == None
          && db.users == old(db.users)[id := WithFreshOtp(u, code, now)]
          && db.users[id].refreshToken == u.refreshToken
        else
          && status == StatusOk && !requiresVerification && tokens == Some(minted)
          && db.users == old(db.users)[id := u.(refreshToken := Some(minted.refreshToken))]
  {
    requiresVerification, tokens := false, None;
    if email == "" || password == "" {
      return StatusBadRequest, false, None;
    }
    var found := FindByEmail(db.users, email);
    if found.None? || !comparePassword(db.users[found.value], password) {
      return StatusUnauthorized, false, None;
    }
    var id := found.value;
    var user := db.users[id];
    if !user.isVerified {
      user := WithFreshOtp(user, code, now);
      db.users := db.users[id := user];
      return StatusOk, true, None;
    }
    tokens := IssueTokens(db, id, minted);
    status := StatusOk;
  }

  /**
   * `loginWithOTP`: an unknown email gives 404; any existing user, verified or not, gets a fresh
   * OTP.
   */
  method LoginWithOtp(db: Store, email: string, code: string, now: int) returns (status: int)
    requires db.Valid()
    modifies db`users
    ensures db.Valid()
    ensures VerifiedKept(old(db.users), db.users)
    ensures match FindByEmail(old(db.users), email)
      case None => status == StatusNotFound && db.users == old(db.users)
      case Some(id) =>
        status == StatusOk && db.users == old(db.users)[id := WithFreshOtp(old(db.users)[id], code, now)]
  {
    var found := FindByEmail(db.users, email);
    if found.None? {
      return StatusNotFound;
    }
    var id := found.value;
    db.users := db.users[id := WithFreshOtp(db.users[id], code, now)];
    status := StatusOk;
  }

  /**
   * `verifyLoginOTP`: an unknown email or a rejected code gives 400 and changes nothing;
   * otherwise the OTP is cleared, the user is verified (if not already) and new tokens are issued.
   */
  method VerifyLoginOtp(db: Store, email: string, otp: string, now: int, minted: TokenPair)
    returns (status: int, tokens: Option<TokenPair>)
    requires db.Valid()
    modifies db`users
    ensures db.Valid()
    ensures VerifiedKept(old(db.users), db.users)
    ensures match FindByEmail(old(db.users), email)
      case None => status == StatusBadRequest && tokens == None && db.users == old(db.users)
      case Some(id) =>
        if OtpAccepts(old(db.users)[id], otp, now) then
          && status == StatusOk
          && tokens == Some(minted)
          && db.users == old(db.users)[id := old(db.users)[id].(isVerified := true, otp := None, refreshToken := Some(minted.refreshToken))]
        else
          status == StatusBadRequest && tokens == None && db.users == old(db.users)
  {
    var found := FindByEmail(db.users, email);
    if found.None? || !OtpAccepts(db.users[found.value], otp, now) {
      return StatusBadRequest, None;
    }
    var id := found.value;
    var user := WithoutOtp(db.users[id]);
    if !user.isVerified {
      user := user.(isVerified := true);
    }
    db.users := db.users[id := user];
    tokens := IssueTokens(db, id, minted);
    status := StatusOk;
  }
}
