/**
 The `Member` account aggregate: an email string, a nickname, a password hash
 and a lifecycle status that moves PENDING -> ACTIVE -> DEACTIVATED.

 Kotlin mutates the object in place and signals a refused transition with an
 `IllegalStateException`; here each operation returns the new member value,
 and a refused transition returns a `Failure` that carries no member, so the
 caller's value is left exactly as it was.
 */
module Members {
  import opened Wrappers

  /** The three lifecycle states. */
  datatype MemberStatus = PENDING | ACTIVE | DEACTIVATED

  /**
   The hashing strategy the caller injects.  Nothing is assumed about how
   `encode` and `matches` relate; lemmas that need it say so in `requires`.
   */
  datatype PasswordEncoder = PasswordEncoder(encode: string -> string, matches: (string, string) -> bool)

  datatype Member = Member(email: string, nickname: string, passwordHsh: string, status: MemberStatus)

  /** The failed `check`: the status the transition needed. */
  datatype MemberError = IllegalState(expected: MemberStatus)

  // ---------------------------------------------------------------------------
  // The lifecycle as a table
  // ---------------------------------------------------------------------------

  /** Position of a status in the lifecycle order PENDING < ACTIVE < DEACTIVATED. */
  function Rank(s: MemberStatus): (r: nat) {
    match s
    case PENDING => 0
    case ACTIVE => 1
    case DEACTIVATED => 2
  }

  /** The legal lifecycle moves. */
  const Transitions: set<(MemberStatus, MemberStatus)> := {(PENDING, ACTIVE), (ACTIVE, DEACTIVATED)}

  predicate CanMove(from: MemberStatus, to: MemberStatus) {
    (from, to) in Transitions
  }

  /** Every legal move goes strictly forward in the lifecycle order. */
  lemma TransitionsMoveForward(from: MemberStatus, to: MemberStatus)
    requires CanMove(from, to)
    ensures Rank(from) < Rank(to)
  {
  }

  /** DEACTIVATED has no outgoing move, and nothing moves back to PENDING. */
  lemma DeactivatedIsTerminal(to: MemberStatus)
    ensures !CanMove(DEACTIVATED, to)
    ensures !CanMove(to, PENDING)
  {
  }

  /** The fields other than `status` agree. */
  predicate SameAccount(a: Member, b: Member) {
    a.email == b.email && a.nickname == b.nickname && a.passwordHsh == b.passwordHsh
  }

  // ---------------------------------------------------------------------------
  // Operations
  // ---------------------------------------------------------------------------

  /**
   `Member.create`: stores the email and nickname as given and the encoder's
   hash of the password, in status PENDING.  The email is not validated.
   */
  function Create(email: string, nickname: string, password: string, encoder: PasswordEncoder): (m: Member)
    ensures m.status == PENDING
    ensures m.email == email && m.nickname == nickname
    ensures m.passwordHsh == encoder.encode(password)
  {
    Member(email, nickname, encoder.encode(password), PENDING)
  }

  /** `activate`: allowed only from PENDING, and then only the status changes, to ACTIVE. */
  function Activate(m: Member): (r: Result<Member, MemberError>)
    ensures r.Success? <==> m.status == PENDING
    ensures r.Success? ==> r.value.status == ACTIVE && SameAccount(m, r.value)
    ensures r.Failure? ==> r.error == IllegalState(PENDING)
  {
    if m.status != PENDING then Failure(IllegalState(PENDING))
    else Success(m.(status := ACTIVE))
  }

  /** `deactivate`: allowed only from ACTIVE, and then only the status changes, to DEACTIVATED. */
  function Deactivate(m: Member): (r: Result<Member, MemberError>)
    ensures r.Success? <==> m.status == ACTIVE
    ensures r.Success? ==> r.value.status == DEACTIVATED && SameAccount(m, r.value)
    ensures r.Failure? ==> r.error == IllegalState(ACTIVE)
  {
    if m.status != ACTIVE then Failure(IllegalState(ACTIVE))
    else Success(m.(status := DEACTIVATED))
  }

  /** `verifyPassword`: asks the encoder whether the raw password matches the stored hash. */
  function VerifyPassword(m: Member, password: string, encoder: PasswordEncoder): (ok: bool)
    ensures ok == encoder.matches(password, m.passwordHsh)
  {
    encoder.matches(password, m.passwordHsh)
  }

  /** `changeNickname`: replaces the nickname in any status; nothing else changes. */
  function ChangeNickname(m: Member, nickname: string): (r: Member)
    ensures r.nickname == nickname
    ensures r.email == m.email && r.passwordHsh == m.passwordHsh && r.status == m.status
  {
    m.(nickname := nickname)
  }

  /** `changePassword`: stores the encoder's hash of the new password in any status; nothing else changes. */
  function ChangePassword(m: Member, password: string, encoder: PasswordEncoder): (r: Member)
    ensures r.passwordHsh == encoder.encode(password)
    ensures r.email == m.email && r.nickname == m.nickname && r.status == m.status
  {
    m.(passwordHsh := encoder.encode(password))
  }

  // ---------------------------------------------------------------------------
  // Properties of the lifecycle
  // ---------------------------------------------------------------------------

  /** The guarded transitions are exactly the moves of the table. */
  lemma LifecycleFollowsTable(m: Member)
    ensures Activate(m).Success? <==> CanMove(m.status, ACTIVE)
    ensures Deactivate(m).Success? <==> CanMove(m.status, DEACTIVATED)
    ensures Activate(m).Success? ==> Rank(m.status) < Rank(Activate(m).value.status)
    ensures Deactivate(m).Success? ==> Rank(m.status) < Rank(Deactivate(m).value.status)
  {
  }

  /** A deactivated member can be neither activated nor deactivated again. */
  lemma DeactivatedMemberIsStuck(m: Member)
    requires m.status == DEACTIVATED
    ensures Activate(m) == Failure(IllegalState(PENDING))
    ensures Deactivate(m) == Failure(IllegalState(ACTIVE))
  {
  }

  /** A second `activate` after a successful one fails. */
  lemma ActivateTwiceFails(m: Member)
    requires Activate(m).Success?
    ensures Activate(Activate(m).value).Failure?
  {
  }

  /** A fresh member cannot be deactivated; it can be activated once and then deactivated. */
  lemma CreatedMemberLifecycle(email: string, nickname: string, password: string, encoder: PasswordEncoder)
    ensures var m := Create(email, nickname, password, encoder);
      && Deactivate(m).Failure?
      && Activate(m).Success?
      && Activate(Activate(m).value).Failure?
      && Deactivate(Activate(m).value).Success?
      && Deactivate(Activate(m).value).value.status == DEACTIVATED
  {
  }

  // ---------------------------------------------------------------------------
  // Password handling
  // ---------------------------------------------------------------------------

  /** The encoder accepts every raw password against its own hash of it. */
  ghost predicate Consistent(encoder: PasswordEncoder) {
    forall raw :: encoder.matches(raw, encoder.encode(raw))
  }

  /** Verification after `create` or `changePassword` compares against the hash of the stored password. */
  lemma VerifyAgainstStoredHash(m: Member, email: string, nickname: string, password: string, probe: string, encoder: PasswordEncoder)
    ensures VerifyPassword(Create(email, nickname, password, encoder), probe, encoder) == encoder.matches(probe, encoder.encode(password))
    ensures VerifyPassword(ChangePassword(m, password, encoder), probe, encoder) == encoder.matches(probe, encoder.encode(password))
    ensures VerifyPassword(ChangeNickname(m, nickname), probe, encoder) == VerifyPassword(m, probe, encoder)
  {
  }

  /** With a consistent encoder the password just set always verifies. */
  lemma CurrentPasswordVerifies(m: Member, email: string, nickname: string, password: string, encoder: PasswordEncoder)
    requires Consistent(encoder)
    ensures VerifyPassword(Create(email, nickname, password, encoder), password, encoder)
    ensures VerifyPassword(ChangePassword(m, password, encoder), password, encoder)
  {
  }
}
