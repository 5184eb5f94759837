# splearn member domain in Dafny

This project models the two domain types of the splearn membership service.

- **`Email`** is a value type. Its constructor accepts an address only when the
  whole string matches one fixed regular expression. Otherwise it throws
  `IllegalArgumentException`.
- **`Member`** is the account aggregate. It holds an email string, a nickname,
  a password hash and a status. The status moves along PENDING → ACTIVE →
  DEACTIVATED. `activate` and `deactivate` are each guarded by a `check` that
  runs before any field changes. `changeNickname` and `changePassword` are
  unconditional setters. `verifyPassword` asks the injected `PasswordEncoder`.

Modules:

- `Wrappers` (`wrappers.dfy`): `Option` and `Result`.
- `Emails` (`email.dfy`): the character classes and the pattern, written
  sub-expression by sub-expression (`MatchesPattern`). It also holds a direct
  characterisation (`WellFormed`) and the proof that the two agree. `Email` is
  a subset type: only validated records exist. `Of` is the validating
  constructor.
- `Members` (`member.dfy`): `MemberStatus`, the `PasswordEncoder` capability,
  `Member`, the transition table and the operations. Each mutator returns a
  new `Member` value. A refused transition returns a `Failure` carrying
  `IllegalState(expected)`.
- `MemberHistory` (`history.dfy`): the in-place semantics of the Kotlin
  object. One call leaves a state and possibly an exception. A caught
  exception leaves the object unchanged. `Run` executes a sequence of calls.
  Reference definitions track each field separately. A call is one of the
  mutating methods or a direct assignment through a public property setter.
  `nickname`, `passwordHsh` and `status` are `var` properties with public
  setters (Member.kt lines 6, 7 and 9). `changePassword` carries its own
  encoder, as each call in Kotlin does.
- `SampleEncoder` (`sample_encoder.dfy`): a concrete upper-casing encoder,
  used to show password verification on fixed inputs.

The `PasswordEncoder` interface source is not part of this model. It is
represented as a pair of caller-supplied functions, `encode` and `matches`.
Nothing relates the two unless a lemma says so in its `requires`
(`Members.Consistent`).

`Member.create` takes a raw email string and does not build an `Email`
(Member.kt lines 5 and 12-13). The two types are independent. `Member` has no
`isActive` query.

## Model

| member | source | states |
|---|---|---|
| `Emails.PatternIff` | src/main/kotlin/tobyspring/splearn/domain/Email.kt:7 | A string matches the anchored pattern iff all of these hold: its first `@` is preceded by a non-empty run of `[a-zA-Z0-9._%+-]`; everything after that `@` is over `[a-zA-Z0-9.-]`; the domain's last `.` is not its first character; the text after that `.` is 2 to 7 ASCII letters |
| `Emails.LocalPartIff` | src/main/kotlin/tobyspring/splearn/domain/Email.kt:7 | The local sub-pattern `[L]+(?:\.[L]+)*` accepts exactly the non-empty strings over the local class, because `.` is itself in the class |
| `Emails.DomainGroupsIff` | src/main/kotlin/tobyspring/splearn/domain/Email.kt:7 | The repeated group `(?:[a-zA-Z0-9.-]+\.)+` accepts exactly the domain-class strings of length at least 2 that end in `.` |
| `Emails.DomainPartIff` | src/main/kotlin/tobyspring/splearn/domain/Email.kt:7 | The text after `@` matches the domain sub-pattern iff it is over `[a-zA-Z0-9.-]`, its last `.` is at index 1 or later, and 2 to 7 letters follow that `.` |
| `Emails.Of` | src/main/kotlin/tobyspring/splearn/domain/Email.kt:5-13 | Construction succeeds iff the whole address matches the pattern. On success the address is stored verbatim, with no trimming or case change. Otherwise it fails with the rejected address |
| `Emails.OfEquality` | src/main/kotlin/tobyspring/splearn/domain/Email.kt:5 | Equality is structural: two emails built from strings are equal iff the strings are equal |
| `Emails.AcceptedHasOneAt` | src/main/kotlin/tobyspring/splearn/domain/Email.kt:7 | Every accepted address contains exactly one `@`, and at least one character precedes it |
| `Emails.AcceptedTopLevelDomain` | src/main/kotlin/tobyspring/splearn/domain/Email.kt:7 | In every accepted address the last `.` is at least two positions after the `@`, and the text after it is 2 to 7 ASCII letters |
| `Emails.NoAtRejected` | src/main/kotlin/tobyspring/splearn/domain/Email.kt:7-11 | A string without `@` is rejected, including the empty string |
| `Emails.DotlessDomainRejected` | src/main/kotlin/tobyspring/splearn/domain/Email.kt:7-11 | A string with no `.` after any of its `@` is rejected |
| `Emails.SampleRejections` | src/main/kotlin/tobyspring/splearn/domain/Email.kt:9-13 | `""`, `"invalid email"` and `"a@b"` are rejected |
| `Emails.SampleAccepted` | src/test/kotlin/tobyspring/splearn/domain/EmailTest.kt:7-12 | `kskyung0624@gmail.com` is accepted and kept verbatim |
| `Members.TransitionsMoveForward` | src/main/kotlin/tobyspring/splearn/domain/Member.kt:17-27 | Every legal status move goes strictly forward in the order PENDING < ACTIVE < DEACTIVATED |
| `Members.DeactivatedIsTerminal` | src/main/kotlin/tobyspring/splearn/domain/Member.kt:17-27 | No legal move leaves DEACTIVATED, and no legal move returns to PENDING |
| `Members.Create` | src/main/kotlin/tobyspring/splearn/domain/Member.kt:9-14 | A new member is PENDING. It keeps the email and nickname as given. Its hash is the encoder's hash of the password |
| `Members.Activate` | src/main/kotlin/tobyspring/splearn/domain/Member.kt:17-21 | Succeeds iff the status is PENDING. It then yields ACTIVE with the other fields unchanged. Otherwise it fails with `IllegalState(PENDING)` |
| `Members.Deactivate` | src/main/kotlin/tobyspring/splearn/domain/Member.kt:23-27 | Succeeds iff the status is ACTIVE. It then yields DEACTIVATED with the other fields unchanged. Otherwise it fails with `IllegalState(ACTIVE)` |
| `Members.VerifyPassword` | src/main/kotlin/tobyspring/splearn/domain/Member.kt:29-31 | Returns exactly the encoder's answer to matching the given password against the stored hash. Being a function, it changes nothing |
| `Members.ChangeNickname` | src/main/kotlin/tobyspring/splearn/domain/Member.kt:33-35 | Sets the nickname in any status. Email, hash and status are unchanged |
| `Members.ChangePassword` | src/main/kotlin/tobyspring/splearn/domain/Member.kt:37-39 | Sets the hash to the encoder's hash of the new password in any status. Email, nickname and status are unchanged |
| `Members.LifecycleFollowsTable` | src/main/kotlin/tobyspring/splearn/domain/Member.kt:17-27 | `activate` and `deactivate` succeed exactly on the moves of the transition table, and each success raises the status rank |
| `Members.DeactivatedMemberIsStuck` | src/main/kotlin/tobyspring/splearn/domain/Member.kt:17-27 | On a DEACTIVATED member both `activate` and `deactivate` fail |
| `Members.ActivateTwiceFails` | src/main/kotlin/tobyspring/splearn/domain/Member.kt:17-21 | After a successful `activate`, a second `activate` fails |
| `Members.CreatedMemberLifecycle` | src/main/kotlin/tobyspring/splearn/domain/Member.kt:9-27 | A new member cannot be deactivated. It can be activated once. After that it can be deactivated, reaching DEACTIVATED |
| `Members.VerifyAgainstStoredHash` | src/main/kotlin/tobyspring/splearn/domain/Member.kt:29-39 | After `create` or `changePassword`, verification asks the encoder to match the probe against the hash of the password just set. `changeNickname` does not affect verification |
| `Members.CurrentPasswordVerifies` | src/main/kotlin/tobyspring/splearn/domain/Member.kt:29-39 | With an encoder that matches its own hashes, the password just set by `create` or `changePassword` verifies |
| `MemberHistory.Invoke` | src/main/kotlin/tobyspring/splearn/domain/Member.kt:5-39 | One call throws iff it is `activate` outside PENDING or `deactivate` outside ACTIVE. A call that throws leaves the object unchanged. The email never changes. Unless the call assigns `status` directly, the status stays put or makes a legal forward move |
| `MemberHistory.Run` | src/main/kotlin/tobyspring/splearn/domain/Member.kt:5-39 | Over any sequence of method calls and property assignments there is one outcome per call and the email stays the same. If no call assigns `status` directly, the status never moves backward |
| `MemberHistory.RunFieldByField` | src/main/kotlin/tobyspring/splearn/domain/Member.kt:5-39 | After any run, each field has its own simple value. The email is unchanged. The nickname is the last one set. The hash is the last one stored: either the hash of a `changePassword` under that call's encoder, or a directly assigned string. The status follows the transition table with refused transitions ignored, except that a direct assignment sets it outright |
| `MemberHistory.RunOutcomes` | src/main/kotlin/tobyspring/splearn/domain/Member.kt:17-27 | The k-th call of a run throws iff it is a transition refused in the status reached by the calls before it |
| `MemberHistory.DeactivatedIsAbsorbing` | src/main/kotlin/tobyspring/splearn/domain/Member.kt:17-27 | From DEACTIVATED, in any run that never assigns `status` directly, every later `activate` or `deactivate` throws and the status stays DEACTIVATED |
| `MemberHistory.SettersBypassGuards` | src/main/kotlin/tobyspring/splearn/domain/Member.kt:6-9 | Through the public `status` setter a DEACTIVATED member can be set back to PENDING and then activated again. The public `passwordHsh` setter stores any string, such as a raw password |
| `MemberHistory.MemberTestScenarios` | src/test/kotlin/tobyspring/splearn/domain/MemberTest.kt:8-35 | A created member is PENDING. `activate` makes it ACTIVE, and a second `activate` throws. On a fresh member, `deactivate` throws, `activate` then succeeds, and another `activate` throws |
| `SampleEncoder.UppercaseScenario` | src/main/kotlin/tobyspring/splearn/domain/Member.kt:29-39 | With the upper-casing encoder, a new member verifies `secret` but not `wrong`. After changing the password to `newSecret`, `newSecret` verifies and `secret` does not |

## Left out

- The `PasswordEncoder` implementation is not part of this model. It is a caller-supplied pair of functions. No law relating `matches` to `encode` is assumed.
- Members.Create: the contract does not say that the stored hash differs from the raw password. With an arbitrary encoder this cannot be stated; the model only says the hash is `encode(password)`. Later, the public `passwordHsh` setter can store any string, including a raw password (`MemberHistory.SettersBypassGuards`).
- Java's `Pattern` engine and its backtracking are not modelled. Only the language of the one fixed pattern is modelled, as predicates over `string`, with ASCII-only character classes.
- Exception messages are not modelled. The model keeps only the failure kind: `InvalidFormat(address)` for `Email` and `IllegalState(expected)` for `Member`.
- Object identity and in-place mutation are modelled as immutable values. `MemberHistory` gives the observable effect of a sequence of calls on one object.
- Concurrency, persistence and framework wiring are not present in the modelled code.
- The tests build `Member` directly through its private constructor, storing `"secret"` as the hash. The model builds members through `Create` instead, and only the tests' status assertions carry over.

## Findings

| source | as written | input that shows it | evidently intended | confidence | as-written member | corrected member |
|---|---|---|---|---|---|---|
| src/main/kotlin/tobyspring/splearn/domain/Member.kt:9 | `status` is a `var` with a public setter, so callers can assign it without going through the guarded transitions | a DEACTIVATED member; assign `status = PENDING`, then call `activate()`, which succeeds | a private setter, so the status changes only through `activate` and `deactivate` and DEACTIVATED is terminal | medium, not executed | `MemberHistory.SettersBypassGuards` | `MemberHistory.DeactivatedIsAbsorbing` |
