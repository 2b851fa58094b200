/** check_hashes and the value the login path passes to login_user. The
    hash function make_hashes (SHA-256 as a hex digest) is left abstract:
    it is a parameter of every member, so nothing here depends on it. */
module Credentials {

  /** What check_hashes returns: the stored hash text, or NoMatch, which
      stands for Python's False. */
  datatype CheckResult = Hashed(text: string) | NoMatch

  /** check_hashes(password, hashed_text) */
  function CheckHashes(makeHashes: string -> string, password: string, hashedText: string): (r: CheckResult)
    ensures r.Hashed? <==> makeHashes(password) == hashedText
    ensures r.Hashed? ==> r.text == hashedText
  {
    if makeHashes(password) == hashedText then Hashed(hashedText) else NoMatch
  }

  /** The password argument of login_user on the login path: check_hashes
      applied to the password and that password's own hash. */
  function LoginPassword(makeHashes: string -> string, password: string): (r: CheckResult)
    ensures r == Hashed(makeHashes(password))
  {
    CheckHashes(makeHashes, password, makeHashes(password))
  }
}
