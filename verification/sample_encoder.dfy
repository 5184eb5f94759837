/**
 A concrete password encoder for exercising `Member`: it hashes by mapping
 ASCII letters to upper case and matches by hashing the probe and comparing.
 */
module SampleEncoder {
  import Members

  function UpperChar(c: char): (u: char) {
    if 'a' <= c <= 'z' then (c as int - 32) as char else c
  }

  function Upper(s: string): (r: string)
    ensures |r| == |s|
    ensures forall i :: 0 <= i < |s| ==> r[i] == UpperChar(s[i])
  {
    if s == [] then [] else [UpperChar(s[0])] + Upper(s[1..])
  }

  function Uppercase(): (encoder: Members.PasswordEncoder) {
    Members.PasswordEncoder(Upper, (raw: string, hash: string) => Upper(raw) == hash)
  }

  /** This encoder accepts every password against its own hash. */
  lemma UppercaseIsConsistent()
    ensures Members.Consistent(Uppercase())
  {
  }

  /**
   With this encoder a new member verifies its password and not another, and
   after `changePassword` the new password verifies and the old one does not.
   */
  lemma UppercaseScenario(email: string, nickname: string)
    ensures var enc := Uppercase();
      var m := Members.Create(email, nickname, "secret", enc);
      var m' := Members.ChangePassword(m, "newSecret", enc);
      && Members.VerifyPassword(m, "secret", enc)
      && !Members.VerifyPassword(m, "wrong", enc)
      && Members.VerifyPassword(m', "newSecret", enc)
      && !Members.VerifyPassword(m', "secret", enc)
  {
  }
}
