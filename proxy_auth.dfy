/** The credential check of the `proxy-auth` crate (proxy-auth/src/lib.rs). */
module ProxyAuth {
  import opened Text

  /** What a server demands of its clients. */
  datatype Authentication = NoAuth | Basic(username: Bytes, password: Bytes)

  /**
   * `Authenticator for Authentication`: no credentials lets everyone in;
   * `Basic(u, p)` lets in exactly the pair (u, p).
   */
  function Authenticate(a: Authentication, user: Bytes, pass: Bytes): (ok: bool)
    ensures a.NoAuth? ==> ok
    ensures a.Basic? ==> (ok <==> user == a.username && pass == a.password)
  {
    match a
    case NoAuth => true
    case Basic(u, p) => u == user && p == pass
  }

  /** A right username is not enough, and neither is a right password. */
  lemma BasicRejectsOneWrong(u: Bytes, p: Bytes, user: Bytes, pass: Bytes)
    requires (user == u) != (pass == p)
    ensures !Authenticate(Basic(u, p), user, pass)
  {
  }

  /** The accepted pair under `Basic` is unique. */
  lemma BasicAcceptsOnlyItsPair(u: Bytes, p: Bytes, user: Bytes, pass: Bytes)
    ensures Authenticate(Basic(u, p), user, pass) ==> user == u && pass == p
    ensures Authenticate(Basic(u, p), u, p)
  {
  }
}
