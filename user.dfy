/**
 * The parts of the User model that the auth controller relies on: the credential fields, the OTP
 * (`generateOTP`, `verifyOTP`) and the token pair. The User model file is not part of this model:
 * password hashing (`comparePassword`) and JWT minting (`generateAccessToken`,
 * `generateRefreshToken`) stay abstract and are supplied by the caller. The OTP rule is taken to be:
 * a code is accepted when it matches exactly and fewer than ten minutes have passed since it was
 * drawn.
 */
module UserModel {
  import opened Common

  /** A one-time code and the instant (in milliseconds) at which it stops being accepted. */
  datatype Otp = Otp(code: string, expiresAt: int)

  /** A stored user: `otp` and `refreshToken` are unset (`undefined`) when `None`. */
  datatype User = User(
    email: string,
    password: string,
    isVerified: bool,
    otp: Option<Otp>,
    refreshToken: Option<string>)

  datatype TokenPair = TokenPair(accessToken: string, refreshToken: string)

  /** Ten minutes, in milliseconds. */
  const OtpLifetimeMs: int := 10 * 60 * 1000

  /** `user.verifyOTP(submitted)` at time `now`. */
  predicate OtpAccepts(u: User, submitted: string, now: int) {
    u.otp.Some? && u.otp.value.code == submitted && now < u.otp.value.expiresAt
  }

  /**
   * `user.generateOTP()` with `code` as the freshly drawn code: the one live OTP is replaced, and it
   * is accepted for exactly the next ten minutes and for no other code. No other field changes.
   */
  function WithFreshOtp(u: User, code: string, now: int): (r: User)
    ensures forall t :: now <= t < now + OtpLifetimeMs ==> OtpAccepts(r, code, t)
    ensures forall t :: now + OtpLifetimeMs <= t ==> !OtpAccepts(r, code, t)
    ensures forall c, t :: c != code ==> !OtpAccepts(r, c, t)
    ensures r.email == u.email && r.password == u.password
    ensures r.isVerified == u.isVerified && r.refreshToken == u.refreshToken
  {
    u.(otp := Some(Otp(code, now + OtpLifetimeMs)))
  }

  /** `user.otp = undefined`: once cleared, no code is accepted, so an OTP is good for one use. */
  function WithoutOtp(u: User): (r: User)
    ensures forall c, t :: !OtpAccepts(r, c, t)
    ensures r.email == u.email && r.password == u.password
    ensures r.isVerified == u.isVerified && r.refreshToken == u.refreshToken
  {
    u.(otp := None)
  }

  /** The storage-level unique index on `email`. */
  predicate EmailsUnique(users: map<Id, User>) {
    forall a, b :: a in users && b in users && a != b ==> users[a].email != users[b].email
  }

  /** `User.findOne({ email })`: the one user with that email, if any. */
  function FindByEmail(users: map<Id, User>, email: string): (r: Option<Id>)
    requires EmailsUnique(users)
    ensures r.Some? ==> r.value in users && users[r.value].email == email
    ensures r.None? ==> forall id :: id in users ==> users[id].email != email
  {
    if exists id :: id in users && users[id].email == email then
      var id :| id in users && users[id].email == email; Some(id)
    else
      None
  }

  /** Every id of `before` is kept, with its email, and nobody verified before is unverified after. */
  predicate VerifiedKept(before: map<Id, User>, after: map<Id, User>) {
    && before.Keys <= after.Keys
    && (forall id :: id in before ==> after[id].email == before[id].email)
    && (forall id :: id in before && before[id].isVerified ==> after[id].isVerified)
  }
}
