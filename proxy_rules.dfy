/**
 * The rule engine of the `proxy-rules` crate (proxy-rules/src/lib.rs): rule
 * strings such as "DOMAIN-SUFFIX,example.com,PROXY,force-remote-dns", the
 * patterns they hold, and the first-match policy over lists of rules. A
 * destination is the text "host:port" of the target being connected.
 */
module ProxyRules {
  import opened Wrappers
  import opened Text
  import opened IpAddrs
  import opened RuleEnv
  import opened Cidr

  datatype Decision = Direct | Proxy(remoteDns: bool) | Default | Deny
  {
    /** `Decision::is_default`. */
    predicate IsDefault() { this == Default }
  }

  const FORCE_REMOTE_DNS: Bytes := Lit("force-remote-dns")

  /** The comma-separated fields `Display for Decision` writes. */
  function DecisionFields(d: Decision): seq<Bytes>
  {
    match d
    case Direct => [Lit("DIRECT")]
    case Proxy(remoteDns) => if remoteDns then [Lit("PROXY"), FORCE_REMOTE_DNS] else [Lit("PROXY")]
    case Default => [Lit("DEFAULT")]
    case Deny => [Lit("DENY")]
  }

  /** `Display for Decision`: "DIRECT", "PROXY,force-remote-dns" or "PROXY", "DEFAULT", "DENY". */
  function ShowDecision(d: Decision): Bytes
  {
    Join(DecisionFields(d), COMMA)
  }

  /** A `Regex` is held by its source text, which is what `Display` prints. */
  datatype Pattern =
    | Exact(domain: Bytes)
    | Suffix(suffix: Bytes)
    | Regex(source: Bytes)
    | Keyword(keyword: Bytes)
    | IpExact(ip: IpAddr)
    | IpCidr(ipAddr: IpAddr, mask: Usize)

  /** The tag and the value `Display for Pattern` writes, separated by a comma. */
  function PatternFields(p: Pattern, sx: Ipv6Syntax): seq<Bytes>
  {
    match p
    case Exact(d) => [Lit("DOMAIN"), d]
    case Suffix(s) => [Lit("DOMAIN-SUFFIX"), s]
    case Regex(src) => [Lit("DOMAIN-REGEX"), src]
    case Keyword(k) => [Lit("DOMAIN-KEYWORD"), k]
    case IpExact(ip) =>
      (match ip
       case V4(v4) => [Lit("IPV4"), ShowIpv4(v4)]
       case V6(v6) => [Lit("IPV6"), sx.show(v6)])
    case IpCidr(ip, mask) =>
      (match ip
       case V4(v4) => [Lit("IP-CIDR"), ShowIpv4(v4) + [SLASH] + ShowNat(mask)]
       case V6(v6) => [Lit("IP-CIDR6"), sx.show(v6) + [SLASH] + ShowNat(mask)])
  }

  /** `Display for Pattern`. */
  function ShowPattern(p: Pattern, sx: Ipv6Syntax): Bytes
  {
    Join(PatternFields(p, sx), COMMA)
  }

  datatype Rule = Rule(pattern: Pattern, decision: Decision)

  /** `Display for Rule`: the pattern, a comma, the decision. */
  function ShowRule(r: Rule, sx: Ipv6Syntax): Bytes
  {
    ShowPattern(r.pattern, sx) + [COMMA] + ShowDecision(r.decision)
  }

  // ---- matching ----

  /** The host part of a "host:port" destination: everything before the last ':'. */
  function Host(dst: Bytes): Bytes
  {
    match RFind(dst, COLON)
    case Some(i) => dst[..i]
    case None => dst
  }

  lemma HostOfTarget(h: Bytes, p: Uint16)
    ensures Host(h + [COLON] + ShowNat(p)) == h
  {
    ShowNatHasNo(p, COLON);
    RFindAfter(h, ShowNat(p), COLON);
    assert (h + [COLON] + ShowNat(p))[..|h|] == h;
  }

  /** `Pattern::Exact` as written: a prefix test on the whole "host:port" text. */
  predicate ExactMatchAsWritten(domain: Bytes, dst: Bytes)
  {
    StartsWith(dst, domain)
  }

  /** `Pattern::Exact` as documented: the host is the domain. */
  predicate ExactMatch(domain: Bytes, dst: Bytes)
  {
    Host(dst) == domain
  }

  /** `Pattern::Suffix` as written: a suffix test on the whole "host:port" text. */
  predicate SuffixMatchAsWritten(suffix: Bytes, dst: Bytes)
  {
    EndsWith(dst, suffix)
  }

  /** `Pattern::Suffix` as documented: the host ends with the suffix. */
  predicate SuffixMatch(suffix: Bytes, dst: Bytes)
  {
    EndsWith(Host(dst), suffix)
  }

  /** The as-written exact pattern accepts hosts that merely begin with the domain. */
  lemma ExactMatchAsWrittenTooWide()
    ensures ExactMatchAsWritten(Lit("example.com"), Lit("example.com.evil.net:443"))
    ensures !ExactMatch(Lit("example.com"), Lit("example.com.evil.net:443"))
  {
    var dst := Lit("example.com.evil.net:443");
    assert Lit("example.com.evil.net:443")[..11] == Lit("example.com");
    assert dst == Lit("example.com.evil.net") + [COLON] + ShowNat(443);
    HostOfTarget(Lit("example.com.evil.net"), 443);
  }

  /** The corrected exact pattern matches a domain target exactly when the host is the domain. */
  lemma ExactMatchTarget(domain: Bytes, h: Bytes, p: Uint16)
    ensures ExactMatch(domain, h + [COLON] + ShowNat(p)) <==> h == domain
  {
    HostOfTarget(h, p);
  }

  /** The as-written suffix pattern never matches a domain target unless the suffix ends in a digit. */
  lemma SuffixMatchAsWrittenMissesTargets(suffix: Bytes, h: Bytes, p: Uint16)
    requires |suffix| > 0 && !IsDigit(suffix[|suffix| - 1])
    ensures !SuffixMatchAsWritten(suffix, h + [COLON] + ShowNat(p))
  {
    var dst := h + [COLON] + ShowNat(p);
    var n := ShowNat(p);
    assert dst[|dst| - 1] == n[|n| - 1];
    EndsWithLast(dst, suffix);
  }

  lemma EndsWithLast(s: Bytes, suffix: Bytes)
    requires |s| > 0 && |suffix| > 0
    ensures s[|s| - 1] != suffix[|suffix| - 1] ==> !EndsWith(s, suffix)
  {
    if |suffix| <= |s| {
      assert s[|s| - |suffix|..][|suffix| - 1] == s[|s| - 1];
    }
  }

  /** The corrected suffix pattern matches a domain target exactly when the host ends with the suffix. */
  lemma SuffixMatchTarget(suffix: Bytes, h: Bytes, p: Uint16)
    ensures SuffixMatch(suffix, h + [COLON] + ShowNat(p)) <==> EndsWith(h, suffix)
  {
    HostOfTarget(h, p);
  }

  // ---- matching, as written and corrected ----

  /** What a policy gives for a destination: a decision, or the panic that ends the call. */
  type Verdict = Result<Decision, Panic>

  /**
   * `Pattern::is_match`. As written, DOMAIN and DOMAIN-SUFFIX test the whole
   * "host:port" text and IP-CIDR uses the mask builder as written; corrected,
   * the first two test the host part and IP-CIDR the prefix mask. Only an
   * IP-CIDR pattern can panic, and only on a destination of its own family.
   */
  function IsMatch(p: Pattern, dst: Bytes, env: Env, m: Matching): (r: Result<bool, Panic>)
    ensures r.Err? ==> p.IpCidr?
    ensures p.IpCidr? && p.ipAddr.V6? ==> (r.Err? <==> ParseSocketV6(dst, env.sx).Some?)
    ensures p.IpCidr? && p.ipAddr.V4? ==> (r.Err? <==> m == AsWritten && ParseSocketV4(dst).Some? && 24 <= p.mask < 32)
  {
    match p
    case Exact(d) => Ok(if m == AsWritten then ExactMatchAsWritten(d, dst) else ExactMatch(d, dst))
    case Suffix(s) => Ok(if m == AsWritten then SuffixMatchAsWritten(s, dst) else SuffixMatch(s, dst))
    case Regex(src) => Ok(env.re.isMatch(src, dst))
    case Keyword(k) => Ok(Contains(dst, k))
    case IpExact(ip) => Ok(IpExactMatch(ip, dst, env.sx))
    case IpCidr(ip, mask) => IpCidrMatch(ip, mask, dst, env.sx, m)
  }

  /** The IP pattern: dst parses as a socket address of the pattern's family with that IP. */
  predicate IpExactMatch(ip: IpAddr, dst: Bytes, sx: Ipv6Syntax)
  {
    match ip
    case V4(v4) => ParseSocketV4(dst).Some? && ParseSocketV4(dst).value.0 == v4
    case V6(v6) => ParseSocketV6(dst, sx).Some? && ParseSocketV6(dst, sx).value.0 == v6
  }

  /**
   * The subnet pattern: dst parses as a socket address of the subnet's
   * family, and `is_subnet` holds of its IP (or panics).
   */
  function IpCidrMatch(subnet: IpAddr, mask: Usize, dst: Bytes, sx: Ipv6Syntax, m: Matching): Result<bool, Panic>
  {
    match subnet
    case V4(_) => if ParseSocketV4(dst).Some? then Subnet(V4(ParseSocketV4(dst).value.0), subnet, mask, m) else Ok(false)
    case V6(_) => if ParseSocketV6(dst, sx).Some? then Subnet(V6(ParseSocketV6(dst, sx).value.0), subnet, mask, m) else Ok(false)
  }

  /** An IP pattern matches a displayed socket address exactly when the IP is the same, whatever the port. */
  lemma IpExactMatchesSocket(ip: IpAddr, sa: SocketAddr, env: Env, m: Matching)
    requires Sound(env.sx)
    ensures IsMatch(IpExact(ip), ShowSocketAddr(sa, env.sx), env, m) == Ok(sa.Ip() == ip)
  {
    assert IsMatch(IpExact(ip), ShowSocketAddr(sa, env.sx), env, m) == Ok(IpExactMatch(ip, ShowSocketAddr(sa, env.sx), env.sx));
    SocketFamiliesDisjoint(sa, env.sx);
    match sa
    case SocketV4(a, p) => ParseShowSocketV4(a, p, env.sx);
    case SocketV6(a, p) => ParseShowSocketV6(a, p, env.sx);
  }

  /**
   * Corrected, an IPv4 CIDR pattern matches a displayed socket address
   * exactly when it is an IPv4 address whose first `mask` bits are the subnet's.
   */
  lemma IpCidrMatchesSocket(subnet: Ipv4, mask: Usize, sa: SocketAddr, env: Env)
    requires Sound(env.sx)
    ensures IsMatch(IpCidr(V4(subnet), mask), ShowSocketAddr(sa, env.sx), env, Corrected)
            == Ok(sa.SocketV4? && SamePrefix(sa.ip4, subnet, mask))
  {
    var dst := ShowSocketAddr(sa, env.sx);
    assert IsMatch(IpCidr(V4(subnet), mask), dst, env, Corrected) == IpCidrMatch(V4(subnet), mask, dst, env.sx, Corrected);
    SocketFamiliesDisjoint(sa, env.sx);
    match sa
    case SocketV4(a, p) =>
      ParseShowSocketV4(a, p, env.sx);
      assert IpCidrMatch(V4(subnet), mask, dst, env.sx, Corrected) == Ok(IsSubnet(V4(a), V4(subnet), mask));
    case SocketV6(a, p) =>
  }

  /**
   * As written, an IPv4 CIDR pattern panics on every IPv4 socket address
   * when the mask is 24 to 31, never matches an IPv6 one, and agrees with
   * the prefix test when the mask is 0, 8, 16 or at least 32.
   */
  lemma IpCidrMatchesSocketAsWritten(subnet: Ipv4, mask: Usize, sa: SocketAddr, env: Env)
    requires Sound(env.sx)
    ensures var r := IsMatch(IpCidr(V4(subnet), mask), ShowSocketAddr(sa, env.sx), env, AsWritten);
            && (sa.SocketV6? ==> r == Ok(false))
            && (sa.SocketV4? && 24 <= mask < 32 ==> r == Err(MaskOutOfBounds))
            && (sa.SocketV4? && ((mask % 8 == 0 && mask < 24) || mask >= 32) ==> r == Ok(SamePrefix(sa.ip4, subnet, mask)))
  {
    var dst := ShowSocketAddr(sa, env.sx);
    assert IsMatch(IpCidr(V4(subnet), mask), dst, env, AsWritten) == IpCidrMatch(V4(subnet), mask, dst, env.sx, AsWritten);
    SocketFamiliesDisjoint(sa, env.sx);
    match sa
    case SocketV4(a, p) =>
      ParseShowSocketV4(a, p, env.sx);
      assert IpCidrMatch(V4(subnet), mask, dst, env.sx, AsWritten) == Subnet(V4(a), V4(subnet), mask, AsWritten);
      if (mask % 8 == 0 && mask < 24) || mask >= 32 {
        SubnetAsWrittenAgrees(a, subnet, mask);
      }
    case SocketV6(a, p) =>
      assert ParseSocketV4(dst).None?;
  }

  function RuleEnforce(r: Rule, dst: Bytes, env: Env, m: Matching): (v: Verdict)
    ensures v.Err? <==> IsMatch(r.pattern, dst, env, m).Err?
    ensures v == Ok(r.decision) <==> IsMatch(r.pattern, dst, env, m) == Ok(true) || (IsMatch(r.pattern, dst, env, m).Ok? && r.decision == Default)
    ensures v.Ok? && !v.value.IsDefault() ==> IsMatch(r.pattern, dst, env, m) == Ok(true)
  {
    match IsMatch(r.pattern, dst, env, m)
    case Err(e) => Err(e)
    case Ok(b) => Ok(if b then r.decision else Default)
  }

  // ---- first-match composition ----

  /** The first verdict that is not Ok(Default), a decision or a panic, or Ok(Default) when there is none. */
  function FirstDecision(ds: seq<Verdict>): (d: Verdict)
    ensures d == Ok(Default) <==> forall i :: 0 <= i < |ds| ==> ds[i] == Ok(Default)
    ensures d != Ok(Default) ==> exists i :: 0 <= i < |ds| && ds[i] == d && forall j :: 0 <= j < i ==> ds[j] == Ok(Default)
  {
    if ds == [] then Ok(Default)
    else if ds[0] != Ok(Default) then ds[0]
    else
      var d := FirstDecision(ds[1..]);
      assert forall i :: 1 <= i < |ds| ==> ds[i] == ds[1..][i - 1];
      d
  }

  /** The verdicts of a list of policies, in order. */
  function Decisions<P>(ps: seq<P>, policy: P -> Verdict): (ds: seq<Verdict>)
    ensures |ds| == |ps|
  {
    seq(|ps|, i requires 0 <= i < |ps| => policy(ps[i]))
  }

  /**
   * `Policy for Vec<P>` and `for &[P]`: scan in order and stop at the first
   * decision that is not Default, or at the first panic.
   */
  method Enforce<P>(ps: seq<P>, policy: P -> Verdict) returns (d: Verdict)
    ensures d == FirstDecision(Decisions(ps, policy))
  {
    ghost var ds := Decisions(ps, policy);
    for i := 0 to |ps|
      invariant forall j :: 0 <= j < i ==> ds[j] == Ok(Default)
    {
      var di := policy(ps[i]);
      if di.Err? || !di.value.IsDefault() {
        assert ds[i] == di;
        return di;
      }
    }
    return Ok(Default);
  }

  function RulePolicy(dst: Bytes, env: Env, m: Matching): Rule -> Verdict
  {
    (r: Rule) => RuleEnforce(r, dst, env, m)
  }

  /** `RuleSet`: a name, the rule strings, and the parsed rules it enforces. */
  datatype RuleSet = RuleSet(name: Option<Bytes>, rules: seq<Bytes>, parsed: seq<Rule>)

  /** `RuleSet::new`: the name, the `Display` text of every rule, and the rules themselves. */
  function RuleSetNew(name: Bytes, rules: seq<Rule>, sx: Ipv6Syntax): (rs: RuleSet)
    ensures rs.name == Some(name) && rs.parsed == rules && |rs.rules| == |rules|
  {
    RuleSet(Some(name), seq(|rules|, i requires 0 <= i < |rules| => ShowRule(rules[i], sx)), rules)
  }

  /** A `RuleSet` read by serde: `parsed` is skipped, so it starts empty. */
  function RuleSetDeserialized(name: Option<Bytes>, rules: seq<Bytes>): (rs: RuleSet)
    ensures rs.rules == rules && rs.parsed == []
  {
    RuleSet(name, rules, [])
  }

  /** `Policy for RuleSet`: the parsed rules, first match wins. */
  function RuleSetDecision(rs: RuleSet, dst: Bytes, env: Env, m: Matching): Verdict
  {
    FirstDecision(Decisions(rs.parsed, RulePolicy(dst, env, m)))
  }

  method EnforceRuleSet(rs: RuleSet, dst: Bytes, env: Env, m: Matching) returns (d: Verdict)
    ensures d == RuleSetDecision(rs, dst, env, m)
  {
    d := Enforce(rs.parsed, RulePolicy(dst, env, m));
  }

  /** A deserialized rule set holds no parsed rules and so decides Default for every destination. */
  lemma DeserializedRuleSetInert(name: Option<Bytes>, rules: seq<Bytes>, dst: Bytes, env: Env, m: Matching)
    ensures RuleSetDecision(RuleSetDeserialized(name, rules), dst, env, m) == Ok(Default)
  {
  }

  datatype Rules = Rules(rules: seq<RuleSet>)

  function RuleSetPolicy(dst: Bytes, env: Env, m: Matching): RuleSet -> Verdict
  {
    (rs: RuleSet) => RuleSetDecision(rs, dst, env, m)
  }

  /** `Policy for Rules`: the rule sets in order, first decision that is not Default wins. */
  method EnforceRules(rules: Rules, dst: Bytes, env: Env, m: Matching) returns (d: Verdict)
    ensures d == FirstDecision(Decisions(rules.rules, RuleSetPolicy(dst, env, m)))
  {
    d := Enforce(rules.rules, RuleSetPolicy(dst, env, m));
  }

  /** The parsed rules of every set, in order. */
  function AllRules(sets: seq<RuleSet>): (rs: seq<Rule>)
  {
    if sets == [] then [] else sets[0].parsed + AllRules(sets[1..])
  }

  lemma FirstDecisionAppend(a: seq<Verdict>, b: seq<Verdict>)
    ensures FirstDecision(a + b) == if FirstDecision(a) != Ok(Default) then FirstDecision(a) else FirstDecision(b)
  {
    var ab := a + b;
    if FirstDecision(a) != Ok(Default) {
      var i :| 0 <= i < |a| && a[i] == FirstDecision(a) && forall j :: 0 <= j < i ==> a[j] == Ok(Default);
      assert ab[i] == a[i];
      FirstDecisionAt(ab, i);
    } else if FirstDecision(b) != Ok(Default) {
      var i :| 0 <= i < |b| && b[i] == FirstDecision(b) && forall j :: 0 <= j < i ==> b[j] == Ok(Default);
      assert ab[|a| + i] == b[i];
      forall j | 0 <= j < |a| + i ensures ab[j] == Ok(Default) {
        if j >= |a| { assert ab[j] == b[j - |a|]; }
      }
      FirstDecisionAt(ab, |a| + i);
    } else {
      forall j | 0 <= j < |ab| ensures ab[j] == Ok(Default) {
        if j >= |a| { assert ab[j] == b[j - |a|]; }
      }
    }
  }

  /** The verdict at the first index whose verdict is not Ok(Default) is the first decision. */
  lemma FirstDecisionAt(ds: seq<Verdict>, i: nat)
    requires i < |ds| && ds[i] != Ok(Default) && forall j :: 0 <= j < i ==> ds[j] == Ok(Default)
    ensures FirstDecision(ds) == ds[i]
  {
  }

  /**
   * Enforcing a list of rule sets is enforcing the list of all their rules:
   * the first matching rule of the first set that decides wins, and the
   * first panic on the way ends it.
   */
  lemma {:induction false} RulesFlatten(sets: seq<RuleSet>, dst: Bytes, env: Env, m: Matching)
    ensures FirstDecision(Decisions(sets, RuleSetPolicy(dst, env, m)))
            == FirstDecision(Decisions(AllRules(sets), RulePolicy(dst, env, m)))
  {
    if sets != [] {
      RulesFlatten(sets[1..], dst, env, m);
      assert AllRules(sets) == sets[0].parsed + AllRules(sets[1..]);
      RulesHead(sets[0].parsed, AllRules(sets[1..]), dst, env, m);
      SetsHead(sets, dst, env, m);
    }
  }

  /** The first decision over two lists of rules: the first list's, unless that one is Default. */
  lemma RulesHead(head: seq<Rule>, tail: seq<Rule>, dst: Bytes, env: Env, m: Matching)
    ensures FirstDecision(Decisions(head + tail, RulePolicy(dst, env, m)))
            == var d := FirstDecision(Decisions(head, RulePolicy(dst, env, m)));
               if d != Ok(Default) then d else FirstDecision(Decisions(tail, RulePolicy(dst, env, m)))
  {
    DecisionsAppend(head, tail, RulePolicy(dst, env, m));
    FirstDecisionAppend(Decisions(head, RulePolicy(dst, env, m)), Decisions(tail, RulePolicy(dst, env, m)));
  }

  /** The first decision over rule sets: the first set's, unless that one is Default. */
  lemma SetsHead(sets: seq<RuleSet>, dst: Bytes, env: Env, m: Matching)
    requires sets != []
    ensures FirstDecision(Decisions(sets, RuleSetPolicy(dst, env, m)))
            == var d := RuleSetDecision(sets[0], dst, env, m);
               if d != Ok(Default) then d else FirstDecision(Decisions(sets[1..], RuleSetPolicy(dst, env, m)))
  {
    var ds := Decisions(sets, RuleSetPolicy(dst, env, m));
    assert ds[0] == RuleSetDecision(sets[0], dst, env, m);
    assert ds[1..] == Decisions(sets[1..], RuleSetPolicy(dst, env, m));
  }

  lemma DecisionsAppend<P>(a: seq<P>, b: seq<P>, policy: P -> Verdict)
    ensures Decisions(a + b, policy) == Decisions(a, policy) + Decisions(b, policy)
  {
  }

  // ---- parsing ----

  /** Why `Rule::from_str` refused a string (the message text is not modelled). */
  datatype RuleError = InvalidRule | InvalidRegex | InvalidAddr | InvalidCidr | InvalidMask | UnknownTag | UnknownDecision

  /** The pattern half of `Rule::from_str`: the tag is compared without regard to ASCII case. */
  function ParsePattern(tag: Bytes, pat: Bytes, env: Env): Result<Pattern, RuleError>
  {
    if EqIgnoreAsciiCase(tag, Lit("DOMAIN")) then Ok(Exact(pat))
    else if EqIgnoreAsciiCase(tag, Lit("DOMAIN-SUFFIX")) then Ok(Suffix(pat))
    else if EqIgnoreAsciiCase(tag, Lit("DOMAIN-REGEX")) then
      (if env.re.compiles(pat) then Ok(Regex(pat)) else Err(InvalidRegex))
    else if EqIgnoreAsciiCase(tag, Lit("DOMAIN-KEYWORD")) then Ok(Keyword(pat))
    else if EqIgnoreAsciiCase(tag, Lit("IPV4")) || EqIgnoreAsciiCase(tag, Lit("IPV6")) then
      (match ParseIpAddr(pat, env.sx)
       case Some(ip) => Ok(IpExact(ip))
       case None => Err(InvalidAddr))
    else if EqIgnoreAsciiCase(tag, Lit("IP-CIDR")) then ParseCidr(pat, env.sx)
    else Err(UnknownTag)
  }

  /** The "IP-CIDR" pattern: an address, then '/' and a usize mask. */
  function ParseCidr(pat: Bytes, sx: Ipv6Syntax): Result<Pattern, RuleError>
  {
    match Find(pat, SLASH)
    case None => Err(InvalidCidr)
    case Some(n) =>
      match ParseIpAddr(pat[..n], sx)
      case None => Err(InvalidAddr)
      case Some(ip) =>
        match ParseUnsigned(pat[n + 1..], USIZE_MAX)
        case None => Err(InvalidMask)
        case Some(mask) => Ok(IpCidr(ip, mask))
  }

  /** `args.iter().any(|i| i.eq_ignore_ascii_case("force-remote-dns"))`. */
  function AnyForceRemoteDns(args: seq<Bytes>): (r: bool)
    ensures r <==> exists i :: 0 <= i < |args| && EqIgnoreAsciiCase(args[i], FORCE_REMOTE_DNS)
  {
    if args == [] then false
    else
      var rest := AnyForceRemoteDns(args[1..]);
      assert forall i :: 1 <= i < |args| ==> args[i] == args[1..][i - 1];
      EqIgnoreAsciiCase(args[0], FORCE_REMOTE_DNS) || rest
  }

  /**
   * The decision half of `Rule::from_str`: the decision is compared without
   * regard to ASCII case, and "proxy" resolves DNS remotely exactly when an
   * extra field reads "force-remote-dns" in any case.
   */
  function ParseDecision(dec: Bytes, args: seq<Bytes>): (r: Result<Decision, RuleError>)
    ensures r.Ok? && r.value.Proxy? ==>
              (r.value.remoteDns <==> exists i :: 0 <= i < |args| && EqIgnoreAsciiCase(args[i], FORCE_REMOTE_DNS))
    ensures r.Err? ==> r.error == UnknownDecision
  {
    if EqIgnoreAsciiCase(dec, Lit("direct")) then Ok(Direct)
    else if EqIgnoreAsciiCase(dec, Lit("proxy")) then Ok(Proxy(AnyForceRemoteDns(args)))
    else if EqIgnoreAsciiCase(dec, Lit("default")) then Ok(Default)
    else if EqIgnoreAsciiCase(dec, Lit("deny")) then Ok(Deny)
    else Err(UnknownDecision)
  }

  /** `Rule::from_str` over the comma-separated fields: tag, pattern, decision, then extra arguments. */
  function ParseFields(fields: seq<Bytes>, env: Env): Result<Rule, RuleError>
  {
    if |fields| < 3 then Err(InvalidRule)
    else
      match ParsePattern(fields[0], fields[1], env)
      case Err(e) => Err(e)
      case Ok(p) =>
        match ParseDecision(fields[2], fields[3..])
        case Err(e) => Err(e)
        case Ok(d) => Ok(Rule(p, d))
  }

  /**
   * `Rule::from_str`: one pass over the comma-separated fields fills the tag,
   * pattern and decision slots in turn and collects the rest as arguments.
   */
  method FromStr(s: Bytes, env: Env) returns (r: Result<Rule, RuleError>)
    ensures r == ParseFields(Split(s, COMMA), env)
    ensures |Split(s, COMMA)| < 3 ==> r == Err(InvalidRule)
  {
    var splits := Split(s, COMMA);
    var patTag: Option<Bytes> := None;
    var pat: Option<Bytes> := None;
    var decision: Option<Bytes> := None;
    var args: seq<Bytes> := [];
    for i := 0 to |splits|
      invariant patTag == (if i >= 1 then Some(splits[0]) else None)
      invariant pat == (if i >= 2 then Some(splits[1]) else None)
      invariant decision == (if i >= 3 then Some(splits[2]) else None)
      invariant args == (if i > 3 then splits[3..i] else [])
    {
      var split := splits[i];
      if patTag.None? {
        patTag := Some(split);
      } else if pat.None? {
        pat := Some(split);
      } else if decision.None? {
        decision := Some(split);
      } else {
        assert splits[3..i + 1] == splits[3..i] + [split];
        args := args + [split];
      }
    }
    if patTag.None? || pat.None? || decision.None? {
      return Err(InvalidRule);
    }
    assert args == splits[3..];
    var pattern := ParsePattern(patTag.value, pat.value, env);
    if pattern.Err? {
      return Err(pattern.error);
    }
    var dec := ParseDecision(decision.value, args);
    if dec.Err? {
      return Err(dec.error);
    }
    return Ok(Rule(pattern.value, dec.value));
  }

  /** The tag and the decision are read without regard to ASCII case. */
  lemma ParseCaseInsensitive(fields: seq<Bytes>, tag: Bytes, dec: Bytes, env: Env)
    requires |fields| >= 3 && EqIgnoreAsciiCase(fields[0], tag) && EqIgnoreAsciiCase(fields[2], dec)
    ensures ParseFields(fields, env) == ParseFields([tag, fields[1], dec] + fields[3..], env)
  {
    var g := [tag, fields[1], dec] + fields[3..];
    assert g[0] == tag && g[1] == fields[1] && g[2] == dec && g[3..] == fields[3..];
    PatternAlike(fields[0], tag, fields[1], env);
    DecisionAlike(fields[2], dec, fields[3..]);
  }

  lemma PatternAlike(t1: Bytes, t2: Bytes, pat: Bytes, env: Env)
    requires EqIgnoreAsciiCase(t1, t2)
    ensures ParsePattern(t1, pat, env) == ParsePattern(t2, pat, env)
  {
    EqIgnoreCaseAlike(t1, t2, Lit("DOMAIN"));
    EqIgnoreCaseAlike(t1, t2, Lit("DOMAIN-SUFFIX"));
    EqIgnoreCaseAlike(t1, t2, Lit("DOMAIN-REGEX"));
    EqIgnoreCaseAlike(t1, t2, Lit("DOMAIN-KEYWORD"));
    EqIgnoreCaseAlike(t1, t2, Lit("IPV4"));
    EqIgnoreCaseAlike(t1, t2, Lit("IPV6"));
    EqIgnoreCaseAlike(t1, t2, Lit("IP-CIDR"));
  }

  lemma DecisionAlike(d1: Bytes, d2: Bytes, args: seq<Bytes>)
    requires EqIgnoreAsciiCase(d1, d2)
    ensures ParseDecision(d1, args) == ParseDecision(d2, args)
  {
    EqIgnoreCaseAlike(d1, d2, Lit("direct"));
    EqIgnoreCaseAlike(d1, d2, Lit("proxy"));
    EqIgnoreCaseAlike(d1, d2, Lit("default"));
    EqIgnoreCaseAlike(d1, d2, Lit("deny"));
  }

  /** A rule whose `Display` text `Rule::from_str` reads back. */
  ghost predicate Reparsable(r: Rule, env: Env)
  {
    match r.pattern
    case Exact(d) => COMMA !in d
    case Suffix(s) => COMMA !in s
    case Regex(src) => COMMA !in src && env.re.compiles(src)
    case Keyword(k) => COMMA !in k
    case IpExact(_) => true
    case IpCidr(ip, _) => ip.V4?
  }

  /** The decision words `Display` writes are the ones `from_str` looks for, up to case. */
  lemma DecisionWords()
    ensures EqIgnoreAsciiCase(Lit("DIRECT"), Lit("direct")) && EqIgnoreAsciiCase(Lit("PROXY"), Lit("proxy"))
    ensures EqIgnoreAsciiCase(Lit("DEFAULT"), Lit("default")) && EqIgnoreAsciiCase(Lit("DENY"), Lit("deny"))
    ensures COMMA !in Lit("DIRECT") && COMMA !in Lit("PROXY") && COMMA !in Lit("DEFAULT") && COMMA !in Lit("DENY")
    ensures COMMA !in FORCE_REMOTE_DNS
  {
    DirectWord();
    ProxyWord();
    DefaultWord();
    DenyWord();
    assert FORCE_REMOTE_DNS == [102, 111, 114, 99, 101, 45, 114, 101, 109, 111, 116, 101, 45, 100, 110, 115];
  }

  lemma DirectWord()
    ensures EqIgnoreAsciiCase(Lit("DIRECT"), Lit("direct")) && COMMA !in Lit("DIRECT")
  {
    assert Lit("DIRECT") == [68, 73, 82, 69, 67, 84];
    assert Lit("direct") == [100, 105, 114, 101, 99, 116];
  }

  lemma ProxyWord()
    ensures EqIgnoreAsciiCase(Lit("PROXY"), Lit("proxy")) && COMMA !in Lit("PROXY")
  {
    assert Lit("PROXY") == [80, 82, 79, 88, 89];
    assert Lit("proxy") == [112, 114, 111, 120, 121];
  }

  lemma DefaultWord()
    ensures EqIgnoreAsciiCase(Lit("DEFAULT"), Lit("default")) && COMMA !in Lit("DEFAULT")
  {
    assert Lit("DEFAULT") == [68, 69, 70, 65, 85, 76, 84];
    assert Lit("default") == [100, 101, 102, 97, 117, 108, 116];
  }

  lemma DenyWord()
    ensures EqIgnoreAsciiCase(Lit("DENY"), Lit("deny")) && COMMA !in Lit("DENY")
  {
    assert Lit("DENY") == [68, 69, 78, 89];
    assert Lit("deny") == [100, 101, 110, 121];
  }

  /** No pattern tag holds a comma. */
  lemma TagWords()
    ensures COMMA !in Lit("DOMAIN") && COMMA !in Lit("DOMAIN-SUFFIX") && COMMA !in Lit("DOMAIN-REGEX")
    ensures COMMA !in Lit("DOMAIN-KEYWORD") && COMMA !in Lit("IPV4") && COMMA !in Lit("IPV6")
    ensures COMMA !in Lit("IP-CIDR") && COMMA !in Lit("IP-CIDR6")
    ensures |Lit("DOMAIN")| == 6 && |Lit("DOMAIN-SUFFIX")| == 13 && |Lit("DOMAIN-REGEX")| == 12
    ensures |Lit("DOMAIN-KEYWORD")| == 14 && |Lit("IPV4")| == 4 && |Lit("IPV6")| == 4
    ensures |Lit("IP-CIDR")| == 7 && |Lit("IP-CIDR6")| == 8
  {
    LitHasNo("DOMAIN", COMMA);
    LitHasNo("DOMAIN-SUFFIX", COMMA);
    LitHasNo("DOMAIN-REGEX", COMMA);
    LitHasNo("DOMAIN-KEYWORD", COMMA);
    LitHasNo("IPV4", COMMA);
    LitHasNo("IPV6", COMMA);
    LitHasNo("IP-CIDR", COMMA);
    LitHasNo("IP-CIDR6", COMMA);
  }

  lemma DecisionFieldsOf(d: Decision)
    ensures |DecisionFields(d)| >= 1
    ensures forall k :: 0 <= k < |DecisionFields(d)| ==> COMMA !in DecisionFields(d)[k]
    ensures ParseDecision(DecisionFields(d)[0], DecisionFields(d)[1..]) == Ok(d)
  {
    DecisionWords();
    var f := DecisionFields(d);
    match d
    case Direct =>
    case Proxy(remoteDns) =>
      assert EqIgnoreAsciiCase(f[0], Lit("proxy"));
      assert !EqIgnoreAsciiCase(f[0], Lit("direct"));
      if remoteDns {
        assert f[1..][0] == FORCE_REMOTE_DNS;
        assert EqIgnoreAsciiCase(f[1..][0], FORCE_REMOTE_DNS);
      }
    case Default =>
    case Deny =>
  }

  lemma PatternFieldsOf(p: Pattern, env: Env)
    requires Sound(env.sx) && Reparsable(Rule(p, Default), env)
    ensures |PatternFields(p, env.sx)| == 2
    ensures forall k :: 0 <= k < 2 ==> COMMA !in PatternFields(p, env.sx)[k]
    ensures ParsePattern(PatternFields(p, env.sx)[0], PatternFields(p, env.sx)[1], env) == Ok(p)
  {
    TagWords();
    match p
    case Exact(_) =>
    case Suffix(_) =>
    case Regex(_) =>
    case Keyword(_) =>
    case IpExact(ip) => IpExactFieldsOf(ip, env);
    case IpCidr(ip, mask) => IpCidrFieldsOf(ip.v4, mask, env);
  }

  lemma IpExactFieldsOf(ip: IpAddr, env: Env)
    requires Sound(env.sx)
    ensures COMMA !in PatternFields(IpExact(ip), env.sx)[1]
    ensures ParsePattern(PatternFields(IpExact(ip), env.sx)[0], PatternFields(IpExact(ip), env.sx)[1], env) == Ok(IpExact(ip))
  {
    var f := PatternFields(IpExact(ip), env.sx);
    assert f[1] == ShowIpAddr(ip, env.sx);
    ParseShowIpAddr(ip, env.sx);
    IpTagParses(f[0], f[1], env);
    if ip.V4? {
      ShowIpv4Chars(ip.v4);
    }
  }

  /** Under the "IPV4" or "IPV6" tag the pattern is an address. */
  lemma IpTagParses(tag: Bytes, pat: Bytes, env: Env)
    requires tag == Lit("IPV4") || tag == Lit("IPV6")
    ensures ParsePattern(tag, pat, env) == if ParseIpAddr(pat, env.sx).Some? then Ok(IpExact(ParseIpAddr(pat, env.sx).value)) else Err(InvalidAddr)
  {
    TagWords();
  }

  lemma IpCidrFieldsOf(v4: Ipv4, mask: Usize, env: Env)
    requires Sound(env.sx)
    ensures COMMA !in PatternFields(IpCidr(V4(v4), mask), env.sx)[1]
    ensures ParsePattern(PatternFields(IpCidr(V4(v4), mask), env.sx)[0], PatternFields(IpCidr(V4(v4), mask), env.sx)[1], env)
            == Ok(IpCidr(V4(v4), mask))
  {
    var t := ShowIpv4(v4) + [SLASH] + ShowNat(mask);
    var tag := Lit("IP-CIDR");
    var f := PatternFields(IpCidr(V4(v4), mask), env.sx);
    assert f[0] == tag && f[1] == t;
    TagWords();
    ParseCidrTag(tag, t, env);
    ParseShowCidr(v4, mask, env.sx);
  }

  lemma ParseCidrTag(tag: Bytes, pat: Bytes, env: Env)
    requires |tag| == 7 && EqIgnoreAsciiCase(tag, Lit("IP-CIDR"))
    ensures ParsePattern(tag, pat, env) == ParseCidr(pat, env.sx)
  {
    TagWords();
  }

  /** An IPv4 subnet written as "address/mask" parses back to itself. */
  lemma ParseShowCidr(v4: Ipv4, mask: Usize, sx: Ipv6Syntax)
    requires Sound(sx)
    ensures COMMA !in ShowIpv4(v4) + [SLASH] + ShowNat(mask)
    ensures ParseCidr(ShowIpv4(v4) + [SLASH] + ShowNat(mask), sx) == Ok(IpCidr(V4(v4), mask))
  {
    var a := ShowIpv4(v4);
    ShowIpAddrFree(V4(v4), sx);
    CidrHalves(a, mask);
    ParseShowNat(mask, USIZE_MAX);
    ParseCidrOf(a + [SLASH] + ShowNat(mask), sx, |a|, V4(v4), mask);
  }

  /** "address/mask" has its first '/' right after the address. */
  lemma CidrHalves(a: Bytes, mask: nat)
    requires SLASH !in a && COMMA !in a
    ensures var t := a + [SLASH] + ShowNat(mask);
            COMMA !in t && Find(t, SLASH) == Some(|a|) && t[..|a|] == a && t[|a| + 1..] == ShowNat(mask)
  {
    var t := a + [SLASH] + ShowNat(mask);
    ShowNatHasNo(mask, COMMA);
    FindAfterFree(a, [SLASH] + ShowNat(mask), SLASH);
    assert t == a + ([SLASH] + ShowNat(mask));
  }

  /** `parse_cidr` of a text whose two halves around its first '/' parse. */
  lemma ParseCidrOf(pat: Bytes, sx: Ipv6Syntax, n: nat, ip: IpAddr, mask: Usize)
    requires Find(pat, SLASH) == Some(n) && n < |pat|
    requires ParseIpAddr(pat[..n], sx) == Some(ip)
    requires ParseUnsigned(pat[n + 1..], USIZE_MAX) == Some(mask)
    ensures ParseCidr(pat, sx) == Ok(IpCidr(ip, mask))
  {
  }

  /** `Rule::from_str` reads back the `Display` text of every reparsable rule. */
  lemma ParseShowRule(r: Rule, env: Env)
    requires Sound(env.sx) && Reparsable(r, env)
    ensures ParseFields(Split(ShowRule(r, env.sx), COMMA), env) == Ok(r)
  {
    var pf := PatternFields(r.pattern, env.sx);
    var df := DecisionFields(r.decision);
    PatternFieldsOf(r.pattern, env);
    DecisionFieldsOf(r.decision);
    RuleFieldsSplit(pf, df);
    ParseRuleFields(pf, df, r, env);
  }

  /** The fields of a pattern followed by those of a decision parse as the rule of the two. */
  lemma ParseRuleFields(pf: seq<Bytes>, df: seq<Bytes>, r: Rule, env: Env)
    requires |pf| == 2 && |df| >= 1
    requires ParsePattern(pf[0], pf[1], env) == Ok(r.pattern)
    requires ParseDecision(df[0], df[1..]) == Ok(r.decision)
    ensures ParseFields(pf + df, env) == Ok(r)
  {
    var fields := pf + df;
    assert fields[0] == pf[0] && fields[1] == pf[1] && fields[2] == df[0] && fields[3..] == df[1..];
  }

  /** The "IP-CIDR6" tag that `Display` writes for an IPv6 subnet is not one `Rule::from_str` knows. */
  lemma ParseShowIpCidr6(v6: Ipv6, mask: Usize, d: Decision, env: Env)
    requires Sound(env.sx)
    ensures ParseFields(Split(ShowRule(Rule(IpCidr(V6(v6), mask), d), env.sx), COMMA), env) == Err(UnknownTag)
  {
    var pf := PatternFields(IpCidr(V6(v6), mask), env.sx);
    var df := DecisionFields(d);
    DecisionFieldsOf(d);
    TagWords();
    ShowNatHasNo(mask, COMMA);
    assert COMMA !in pf[1];
    RuleFieldsSplit(pf, df);
    var tag := Lit("IP-CIDR6");
    assert (pf + df)[0] == tag;
    assert ParsePattern(tag, pf[1], env) == Err(UnknownTag);
  }

  /** Splitting a rule's text on commas gives back its fields when none holds a comma. */
  lemma RuleFieldsSplit(pf: seq<Bytes>, df: seq<Bytes>)
    requires |pf| >= 1 && |df| >= 1
    requires forall k :: 0 <= k < |pf| ==> COMMA !in pf[k]
    requires forall k :: 0 <= k < |df| ==> COMMA !in df[k]
    ensures Split(Join(pf, COMMA) + [COMMA] + Join(df, COMMA), COMMA) == pf + df
  {
    JoinAppend(pf, df, COMMA);
    forall k | 0 <= k < |pf + df| ensures COMMA !in (pf + df)[k] {
      if k < |pf| { assert (pf + df)[k] == pf[k]; } else { assert (pf + df)[k] == df[k - |pf|]; }
    }
    SplitJoin(pf + df, COMMA);
  }

  /** Every rule string `RuleSet::new` stores reads back as the rule it came from. */
  lemma RuleSetNewReparses(name: Bytes, rules: seq<Rule>, env: Env)
    requires Sound(env.sx) && forall i :: 0 <= i < |rules| ==> Reparsable(rules[i], env)
    ensures var rs := RuleSetNew(name, rules, env.sx);
            forall i :: 0 <= i < |rs.rules| ==> ParseFields(Split(rs.rules[i], COMMA), env) == Ok(rs.parsed[i])
  {
    var rs := RuleSetNew(name, rules, env.sx);
    forall i | 0 <= i < |rs.rules| ensures ParseFields(Split(rs.rules[i], COMMA), env) == Ok(rs.parsed[i]) {
      ParseShowRule(rules[i], env);
    }
  }
}
