/**
 Sequences of calls on one `Member` object, with the in-place semantics of
 the Kotlin class: a call either returns after mutating the object or throws
 before touching it, and the caller may catch the exception and go on using
 the same object.

 Besides the methods, the class's `nickname`, `passwordHsh` and `status`
 properties are `var` with public setters, so a caller may also assign them
 directly.  Such assignments bypass the guards: the lifecycle properties
 below hold for runs that never assign `status` directly.
 */
module MemberHistory {
  import opened Wrappers
  import Members

  /** The methods of `Member` that mutate, and direct assignments to its public properties. */
  datatype Call =
    | Activate
    | Deactivate
    | ChangeNickname(nickname: string)
    | ChangePassword(password: string, encoder: Members.PasswordEncoder)
    | SetNickname(newNickname: string)
    | SetPasswordHsh(hash: string)
    | SetStatus(status: Members.MemberStatus)

  /** What one call leaves behind: the object's state and the exception raised, if any. */
  datatype Reply = Reply(member: Members.Member, thrown: Option<Members.MemberError>)

  /** What a run of calls leaves behind: the final state and, per call, the exception raised. */
  datatype Trace = Trace(member: Members.Member, thrown: seq<Option<Members.MemberError>>)

  predicate IsLifecycle(c: Call) {
    c.Activate? || c.Deactivate?
  }

  /** The call is a guarded transition whose `check` fails in status `s`. */
  predicate Refused(s: Members.MemberStatus, c: Call) {
    (c.Activate? && s != Members.PENDING) || (c.Deactivate? && s != Members.ACTIVE)
  }

  /** No call of the run assigns `status` directly. */
  predicate NoStatusAssignment(calls: seq<Call>) {
    forall k :: 0 <= k < |calls| ==> !calls[k].SetStatus?
  }

  /** A transition's outcome seen from the object: on failure it keeps its old state. */
  function Catch(m: Members.Member, r: Result<Members.Member, Members.MemberError>): (reply: Reply)
    ensures reply.thrown.Some? <==> r.Failure?
    ensures r.Failure? ==> reply.member == m && reply.thrown.value == r.error
    ensures r.Success? ==> reply.member == r.value
  {
    match r
    case Success(next) => Reply(next, None)
    case Failure(e) => Reply(m, Some(e))
  }

  /** One call on the object. */
  function Invoke(m: Members.Member, c: Call): (r: Reply)
    ensures r.thrown.Some? <==> Refused(m.status, c)
    ensures r.thrown.Some? ==> r.member == m
    ensures r.member.email == m.email
    ensures !c.SetStatus? ==> r.member.status == m.status || Members.CanMove(m.status, r.member.status)
    ensures !c.SetStatus? ==> Members.Rank(m.status) <= Members.Rank(r.member.status)
  {
    match c
    case Activate => Catch(m, Members.Activate(m))
    case Deactivate => Catch(m, Members.Deactivate(m))
    case ChangeNickname(n) => Reply(Members.ChangeNickname(m, n), None)
    case ChangePassword(p, encoder) => Reply(Members.ChangePassword(m, p, encoder), None)
    case SetNickname(n) => Reply(m.(nickname := n), None)
    case SetPasswordHsh(h) => Reply(m.(passwordHsh := h), None)
    case SetStatus(s) => Reply(m.(status := s), None)
  }

  /**
   Calls made one after another, each exception caught: one entry per call,
   the email never changes, and unless `status` is assigned directly the
   status never moves back.
   */
  function Run(m: Members.Member, calls: seq<Call>): (t: Trace)
    ensures |t.thrown| == |calls|
    ensures t.member.email == m.email
    ensures NoStatusAssignment(calls) ==> Members.Rank(m.status) <= Members.Rank(t.member.status)
    decreases |calls|
  {
    if calls == [] then Trace(m, [])
    else
      var r := Invoke(m, calls[0]);
      assert NoStatusAssignment(calls) ==> NoStatusAssignment(calls[1..]) by {
        if NoStatusAssignment(calls) {
          forall k | 0 <= k < |calls[1..]|
            ensures !calls[1..][k].SetStatus?
          {
            assert calls[1..][k] == calls[k + 1];
          }
        }
      }
      var rest := Run(r.member, calls[1..]);
      Trace(rest.member, [r.thrown] + rest.thrown)
  }

  // ---------------------------------------------------------------------------
  // Field-by-field reference definitions
  // ---------------------------------------------------------------------------

  /** The status after one call: read off the transition table, or the assigned value. */
  function NextStatus(s: Members.MemberStatus, c: Call): (next: Members.MemberStatus) {
    match c
    case Activate => if Members.CanMove(s, Members.ACTIVE) then Members.ACTIVE else s
    case Deactivate => if Members.CanMove(s, Members.DEACTIVATED) then Members.DEACTIVATED else s
    case SetStatus(t) => t
    case _ => s
  }

  function StatusAfter(s: Members.MemberStatus, calls: seq<Call>): (last: Members.MemberStatus)
    decreases |calls|
  {
    if calls == [] then s else StatusAfter(NextStatus(s, calls[0]), calls[1..])
  }

  /** The nickname of the last `changeNickname` or assignment, or the starting one. */
  function NicknameAfter(n: string, calls: seq<Call>): (last: string)
    decreases |calls|
  {
    if calls == [] then n
    else
      var next := match calls[0]
        case ChangeNickname(v) => v
        case SetNickname(v) => v
        case _ => n;
      NicknameAfter(next, calls[1..])
  }

  /** The hash of the last `changePassword`, or the last hash assigned, or the starting one. */
  function HashAfter(h: string, calls: seq<Call>): (last: string)
    decreases |calls|
  {
    if calls == [] then h
    else
      var next := match calls[0]
        case ChangePassword(p, encoder) => encoder.encode(p)
        case SetPasswordHsh(v) => v
        case _ => h;
      HashAfter(next, calls[1..])
  }

  /**
   Each field evolves on its own: the email stays, the nickname is the last
   one set, the hash is the last one stored, and the status follows the
   transition table (refused transitions ignored) or the last direct
   assignment.
   */
  lemma {:induction false} RunFieldByField(m: Members.Member, calls: seq<Call>)
    ensures Run(m, calls).member
         == Members.Member(m.email, NicknameAfter(m.nickname, calls), HashAfter(m.passwordHsh, calls), StatusAfter(m.status, calls))
    decreases |calls|
  {
    if calls != [] {
      var r := Invoke(m, calls[0]);
      RunFieldByField(r.member, calls[1..]);
    }
  }

  /** The `k`-th call throws exactly when it is a transition refused in the status reached before it. */
  lemma {:induction false} RunOutcomes(m: Members.Member, calls: seq<Call>, k: nat)
    requires k < |calls|
    ensures Run(m, calls).thrown[k].Some? <==> Refused(StatusAfter(m.status, calls[..k]), calls[k])
    decreases |calls|
  {
    var r := Invoke(m, calls[0]);
    RunFieldByField(m, [calls[0]]);
    assert r.member.status == NextStatus(m.status, calls[0]);
    if k > 0 {
      RunOutcomes(r.member, calls[1..], k - 1);
      assert Run(m, calls).thrown[k] == Run(r.member, calls[1..]).thrown[k - 1];
      assert calls[..k][0] == calls[0];
      assert calls[..k][1..] == calls[1..][..k - 1];
      assert calls[1..][k - 1] == calls[k];
    }
  }

  /**
   Once DEACTIVATED, always DEACTIVATED unless `status` is assigned directly:
   every later `activate` and `deactivate` throws, and the status stays.
   */
  lemma {:induction false} DeactivatedIsAbsorbing(m: Members.Member, calls: seq<Call>)
    requires m.status == Members.DEACTIVATED
    ensures NoStatusAssignment(calls) ==> Run(m, calls).member.status == Members.DEACTIVATED
    ensures NoStatusAssignment(calls) ==>
      forall k :: 0 <= k < |calls| && IsLifecycle(calls[k]) ==> Run(m, calls).thrown[k].Some?
    decreases |calls|
  {
    if calls != [] && NoStatusAssignment(calls) {
      var r := Invoke(m, calls[0]);
      assert !calls[0].SetStatus?;
      assert NoStatusAssignment(calls[1..]) by {
        forall k | 0 <= k < |calls[1..]|
          ensures !calls[1..][k].SetStatus?
        {
          assert calls[1..][k] == calls[k + 1];
        }
      }
      DeactivatedIsAbsorbing(r.member, calls[1..]);
      var t := Run(m, calls);
      forall k | 0 <= k < |calls| && IsLifecycle(calls[k])
        ensures t.thrown[k].Some?
      {
        if k > 0 {
          assert t.thrown[k] == Run(r.member, calls[1..]).thrown[k - 1];
          assert calls[1..][k - 1] == calls[k];
        }
      }
    }
  }

  /**
   The public `status` setter bypasses the guards: a DEACTIVATED member can be
   set back to PENDING and then activated again.  The public `passwordHsh`
   setter stores whatever string it is given, such as a raw password.
   */
  lemma SettersBypassGuards(m: Members.Member, raw: string)
    requires m.status == Members.DEACTIVATED
    ensures Run(m, [SetStatus(Members.PENDING), Activate]).member.status == Members.ACTIVE
    ensures Run(m, [SetStatus(Members.PENDING), Activate]).thrown == [None, None]
    ensures Run(m, [SetPasswordHsh(raw)]).member.passwordHsh == raw
  {
  }

  /**
   The repository's member tests, on a member from `create` (their direct
   constructor call is private in the class): activation works once, and
   deactivating a pending member throws.
   */
  lemma MemberTestScenarios(email: string, encoder: Members.PasswordEncoder)
    ensures var m := Members.Create(email, "Soko", "secret", encoder);
      && m.status == Members.PENDING
      && Run(m, [Activate]).member.status == Members.ACTIVE
      && Run(m, [Activate, Activate]).thrown == [None, Some(Members.IllegalState(Members.PENDING))]
      && Run(m, [Deactivate, Activate, Activate]).thrown
         == [Some(Members.IllegalState(Members.ACTIVE)), None, Some(Members.IllegalState(Members.PENDING))]
  {
  }
}
