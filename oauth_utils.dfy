/** `generate_username_from_email` (app/oauth_utils.py).  The random
    suffix used for an empty email comes from `uuid4().hex[:8]`; the model
    takes those eight characters as a parameter. */
module OAuthUtils {
  import opened Strings

  /** Eight lower-case hexadecimal digits, the shape of `uuid4().hex[:8]`. */
  predicate IsHex8(s: string) {
    |s| == 8 && forall i | 0 <= i < |s| :: s[i] in "0123456789abcdef"
  }

  /** The local part of an address with `.` and `-` turned into `_`, lower-cased. */
  function LocalName(email: string): (r: string)
    ensures |r| == |BeforeFirst(email, '@')|
    ensures forall i | 0 <= i < |r| ::
              r[i] == (var c := BeforeFirst(email, '@')[i]; if c == '.' || c == '-' then '_' else LowerChar(c))
    ensures '.' !in r && '-' !in r && '@' !in r
    ensures forall i | 0 <= i < |r| :: !('A' <= r[i] <= 'Z')
  {
    var local := BeforeFirst(email, '@');
    var r := Lower(ReplaceChar(ReplaceChar(local, '.', '_'), '-', '_'));
    assert forall i | 0 <= i < |r| :: r[i] != '@' by {
      forall i | 0 <= i < |r| ensures r[i] != '@' { assert local[i] in local; }
    }
    r
  }

  function GenerateUsernameFromEmail(email: string, provider: string, randomHex: string): (r: string)
    requires IsHex8(randomHex)
    ensures email == "" ==> r == provider + "_" + randomHex && |r| == |provider| + 9
    ensures email != "" ==> r == LocalName(email) + "_" + provider
  {
    if email == "" then provider + "_" + randomHex
    else LocalName(email) + "_" + provider
  }
}
