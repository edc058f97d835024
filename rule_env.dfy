/** What both rule engines take from libraries outside the model. */
module RuleEnv {
  import opened Text
  import opened IpAddrs

  /**
   * The `regex` crate, which is not modelled: which sources `Regex::new`
   * accepts, and which texts a compiled source matches.
   */
  datatype RegexEngine = RegexEngine(compiles: Bytes -> bool, isMatch: (Bytes, Bytes) -> bool)

  /** The IPv6 text syntax and the regex engine. */
  datatype Env = Env(sx: Ipv6Syntax, re: RegexEngine)
}
