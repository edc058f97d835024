/**
 * The rule engine of the `lightway` binary (src/rule/mod.rs and
 * src/rule/rules.rs): rules over `netway` destinations, the rule-string
 * parser, and first-match enforcement that carries each rule's extra
 * arguments along with its decision.
 */
module LightwayRules {
  import opened Wrappers
  import opened Text
  import opened IpAddrs
  import opened RuleEnv
  import opened NetwayDst
  import opened Cidr

  datatype Decision = Direct | Proxy(remoteDns: bool) | Default | Deny
  {
    /** `Decision::is_default`. */
    predicate IsDefault() { this == Default }
  }

  /** `Display for Decision`: the lower-case word, which for Proxy does not say how DNS is resolved. */
  function ShowDecision(d: Decision): Bytes
  {
    match d
    case Direct => Lit("direct")
    case Proxy(_) => Lit("proxy")
    case Default => Lit("default")
    case Deny => Lit("deny")
  }

  /** `Args`: the fields after the decision. */
  type Args = seq<Bytes>

  /** A `Regex` is held by its source text, which is what `Display` prints. */
  datatype Rule =
    | DomainExact(domain: Bytes)
    | DomainSuffix(suffix: Bytes)
    | DomainRegex(source: Bytes)
    | DomainKeyword(keyword: Bytes)
    | IpExact(ip: IpAddr)
    | IpCidr(ipAddr: IpAddr, mask: Usize)
  {
    predicate IsDomainRule() { DomainExact? || DomainSuffix? || DomainRegex? || DomainKeyword? }
  }

  /** The tag and the value `Display for Rule` writes, separated by a comma. */
  function RuleFields(r: Rule, sx: Ipv6Syntax): seq<Bytes>
  {
    match r
    case DomainExact(d) => [Lit("DOMAIN"), d]
    case DomainSuffix(s) => [Lit("DOMAIN-SUFFIX"), s]
    case DomainRegex(src) => [Lit("DOMAIN-REGEX"), src]
    case DomainKeyword(k) => [Lit("DOMAIN-KEYWORD"), k]
    case IpExact(ip) =>
      (match ip
       case V4(_) => [Lit("IPV4"), ShowIpAddr(ip, sx)]
       case V6(_) => [Lit("IPV6"), ShowIpAddr(ip, sx)])
    case IpCidr(ip, mask) =>
      (match ip
       case V4(_) => [Lit("IP-CIDR"), ShowIpAddr(ip, sx) + [SLASH] + ShowNat(mask)]
       case V6(_) => [Lit("IP-CIDR6"), ShowIpAddr(ip, sx) + [SLASH] + ShowNat(mask)])
  }

  /** `Display for Rule`. */
  function ShowRule(r: Rule, sx: Ipv6Syntax): Bytes
  {
    Join(RuleFields(r, sx), COMMA)
  }

  // ---- matching ----

  /**
   * `Rule::is_match`: domain rules look at the domain of a Domain target
   * (without its port), IP rules at the IP of a Socket target. `is_subnet`
   * panics for an IPv6 subnet on every Socket target and, as written, for
   * an IPv4 subnet with a mask of 24 to 31 on every IPv4 one.
   */
  function IsMatch(r: Rule, dst: DstAddr, re: RegexEngine, m: Matching): (res: Result<bool, Panic>)
    ensures res.Err? <==> r.IpCidr? && dst.Socket? && (r.ipAddr.V6? || (m == AsWritten && dst.addr.SocketV4? && 24 <= r.mask < 32))
    ensures res == Ok(true) ==> (r.IsDomainRule() <==> dst.Domain?)
  {
    match r
    case DomainExact(d) => Ok(dst.Domain? && dst.domain == d)
    case DomainSuffix(s) => Ok(dst.Domain? && EndsWith(dst.domain, s))
    case DomainRegex(src) => Ok(dst.Domain? && re.isMatch(src, dst.domain))
    case DomainKeyword(k) => Ok(dst.Domain? && Contains(dst.domain, k))
    case IpExact(ip) => Ok(dst.Socket? && dst.addr.Ip() == ip)
    case IpCidr(ip, mask) => if dst.Socket? then Subnet(dst.addr.Ip(), ip, mask, m) else Ok(false)
  }

  /** The port of a target never decides a match, nor whether matching panics. */
  lemma MatchIgnoresPort(r: Rule, dst: DstAddr, port: Uint16, re: RegexEngine, m: Matching)
    ensures var other := if dst.Domain? then dst.(port := port) else Socket(WithPort(dst.addr, port));
            IsMatch(r, dst, re, m) == IsMatch(r, other, re, m)
  {
  }

  function WithPort(sa: SocketAddr, port: Uint16): (r: SocketAddr)
    ensures r.Ip() == sa.Ip() && r.port == port
  {
    match sa
    case SocketV4(ip, _) => SocketV4(ip, port)
    case SocketV6(ip, _) => SocketV6(ip, port)
  }

  /**
   * Corrected, an IPv4 CIDR rule matches exactly the IPv4 socket targets
   * whose first `mask` bits are the subnet's (RFC 4632 section 3.1).
   */
  lemma CidrMatchIsPrefix(subnet: Ipv4, mask: Usize, dst: DstAddr, re: RegexEngine)
    ensures IsMatch(IpCidr(V4(subnet), mask), dst, re, Corrected)
            == Ok(dst.Socket? && dst.addr.SocketV4? && SamePrefix(dst.addr.ip4, subnet, mask))
  {
  }

  /**
   * As written, an IPv4 CIDR rule panics on every IPv4 socket target when
   * the mask is 24 to 31, never matches a Domain or IPv6 target, and agrees
   * with the prefix test when the mask is 0, 8, 16 or at least 32.
   */
  lemma CidrMatchAsWritten(subnet: Ipv4, mask: Usize, dst: DstAddr, re: RegexEngine)
    ensures var r := IsMatch(IpCidr(V4(subnet), mask), dst, re, AsWritten);
            && (!(dst.Socket? && dst.addr.SocketV4?) ==> r == Ok(false))
            && (dst.Socket? && dst.addr.SocketV4? && 24 <= mask < 32 ==> r == Err(MaskOutOfBounds))
            && (dst.Socket? && dst.addr.SocketV4? && ((mask % 8 == 0 && mask < 24) || mask >= 32)
                ==> r == Ok(SamePrefix(dst.addr.ip4, subnet, mask)))
  {
    if dst.Socket? && dst.addr.SocketV4? && ((mask % 8 == 0 && mask < 24) || mask >= 32) {
      SubnetAsWrittenAgrees(dst.addr.ip4, subnet, mask);
    }
  }

  // ---- parsing ----

  datatype ParseError =
    | InvalidRule
    | InvalidDecision
    | InvalidRegex
    | InvalidAddr
    | InvalidSubnet
    | ParseIntError
    | UnknownRule

  /** The rule half of `parse`: the tag is compared after Unicode upper-casing. */
  function ParseRule(tag: Bytes, pat: Bytes, env: Env): Result<Rule, ParseError>
  {
    ParseTag(Uppercase(tag), pat, env)
  }

  /** The rule a pattern makes under an already upper-cased tag. */
  function ParseTag(t: Bytes, pat: Bytes, env: Env): Result<Rule, ParseError>
  {
    if t == Lit("DOMAIN") then Ok(DomainExact(pat))
    else if t == Lit("DOMAIN-SUFFIX") then Ok(DomainSuffix(pat))
    else if t == Lit("DOMAIN-REGEX") then
      (if env.re.compiles(pat) then Ok(DomainRegex(pat)) else Err(InvalidRegex))
    else if t == Lit("DOMAIN-KEYWORD") then Ok(DomainKeyword(pat))
    else if t == Lit("IPV4") || t == Lit("IPV6") then
      (match ParseIpAddr(pat, env.sx)
       case Some(ip) => Ok(IpExact(ip))
       case None => Err(InvalidAddr))
    else if t == Lit("IP-CIDR") || t == Lit("IP-CIDR6") then ParseSubnet(pat, env.sx)
    else Err(UnknownRule)
  }

  /**
   * `to_uppercase` turns some letters beyond ASCII into ASCII ones, so
   * "domaın" (with a dotless i) reads as DOMAIN and "DOMAIN-SUﬀIX" (with
   * the ff ligature) as DOMAIN-SUFFIX.
   */
  lemma NonAsciiTags(pat: Bytes, env: Env)
    ensures ParseRule([100, 111, 109, 97, 0xc4, 0xb1, 110], pat, env) == Ok(DomainExact(pat))
    ensures ParseRule(Lit("DOMAIN-SU") + [0xef, 0xac, 0x80] + Lit("IX"), pat, env) == Ok(DomainSuffix(pat))
  {
    DotlessTag([100, 111, 109, 97, 0xc4, 0xb1, 110]);
    LigatureTag(Lit("DOMAIN-SU") + [0xef, 0xac, 0x80] + Lit("IX"));
  }

  lemma DotlessTag(t: Bytes)
    requires t == [100, 111, 109, 97, 0xc4, 0xb1, 110]
    ensures Uppercase(t) == Lit("DOMAIN")
  {
    var head, tail := t[..4], t[4..];
    assert t == head + tail;
    UppercaseAppend(head, tail);
    UpperDoma(head);
    UpperDotlessTail(tail);
    DomainBytes();
  }

  lemma UpperDoma(head: Bytes)
    requires head == [100, 111, 109, 97]
    ensures Uppercase(head) == [68, 79, 77, 65]
  {
    UppercaseAscii(head);
  }

  lemma UpperDotlessTail(tail: Bytes)
    requires tail == [0xc4, 0xb1, 110]
    ensures Uppercase(tail) == [73, 78]
  {
    assert tail[2..] == [110];
    assert Uppercase(tail[2..]) == [78];
    assert Uppercase(tail) == [73] + Uppercase(tail[2..]);
  }

  lemma DomainBytes()
    ensures Lit("DOMAIN") == [68, 79, 77, 65] + [73, 78]
  {
  }

  lemma LigatureTag(t: Bytes)
    requires t == Lit("DOMAIN-SU") + [0xef, 0xac, 0x80] + Lit("IX")
    ensures Uppercase(t) == Lit("DOMAIN-SUFFIX")
  {
    var head: Bytes := [68, 79, 77, 65, 73, 78, 45, 83, 85];
    var tail: Bytes := [0xef, 0xac, 0x80, 73, 88];
    LigatureBytes(t, head, tail);
    UpperHead(head);
    UppercaseAppend(head, tail);
    UpperLigatureTail();
    SuffixBytes(head);
  }

  lemma LigatureBytes(t: Bytes, head: Bytes, tail: Bytes)
    requires t == Lit("DOMAIN-SU") + [0xef, 0xac, 0x80] + Lit("IX")
    requires head == [68, 79, 77, 65, 73, 78, 45, 83, 85] && tail == [0xef, 0xac, 0x80, 73, 88]
    ensures t == head + tail
  {
    assert Lit("DOMAIN-SU") == head;
    assert Lit("IX") == [73, 88];
  }

  lemma SuffixBytes(head: Bytes)
    requires head == [68, 79, 77, 65, 73, 78, 45, 83, 85]
    ensures Lit("DOMAIN-SUFFIX") == head + [70, 70, 73, 88]
  {
  }

  lemma UpperHead(head: Bytes)
    requires forall i :: 0 <= i < |head| ==> 65 <= head[i] < 91 || head[i] == 45
    ensures IsAscii(head) && Uppercase(head) == head
  {
    UppercaseAscii(head);
  }

  lemma UpperLigatureTail()
    ensures Uppercase([0xef, 0xac, 0x80, 73, 88]) == [70, 70, 73, 88]
  {
    var tail: Bytes := [0xef, 0xac, 0x80, 73, 88];
    assert tail[3..] == [73, 88];
    assert Uppercase([88]) == [88];
    assert Uppercase(tail[3..]) == [73, 88];
    assert Uppercase(tail) == [70, 70] + Uppercase(tail[3..]);
  }

  /** "IP-CIDR" and "IP-CIDR6": exactly one '/', an address before it and a usize after it. */
  function ParseSubnet(pat: Bytes, sx: Ipv6Syntax): (r: Result<Rule, ParseError>)
    ensures r == Err(InvalidSubnet) <==> |Split(pat, SLASH)| != 2
    ensures r.Ok? ==> r.value.IpCidr?
  {
    var ipMask := Split(pat, SLASH);
    if |ipMask| != 2 then Err(InvalidSubnet)
    else
      match ParseIpAddr(ipMask[0], sx)
      case None => Err(InvalidAddr)
      case Some(ip) =>
        match ParseUnsigned(ipMask[1], USIZE_MAX)
        case None => Err(ParseIntError)
        case Some(mask) => Ok(IpCidr(ip, mask))
  }

  /** The decision half of `parse`: the word is compared after lower-casing, and "proxy" never resolves remotely. */
  function ParseDecision(dec: Bytes): (r: Result<Decision, ParseError>)
    ensures r.Ok? ==> r.value != Proxy(true)
    ensures r.Err? ==> r.error == InvalidDecision
  {
    var d := ToLower(dec);
    if d == Lit("direct") then Ok(Direct)
    else if d == Lit("deny") then Ok(Deny)
    else if d == Lit("proxy") then Ok(Proxy(false))
    else if d == Lit("default") then Ok(Default)
    else Err(InvalidDecision)
  }

  /** What `parse` returns: the rule, its decision and the extra fields, if any. */
  type Parsed = (Rule, Decision, Option<Args>)

  /** `parse`: at least three comma-separated fields, then tag, pattern, decision and the rest. */
  function Parse(raw: Bytes, env: Env): (r: Result<Parsed, ParseError>)
    ensures |Split(raw, COMMA)| < 3 ==> r == Err(InvalidRule)
    ensures r.Ok? ==> r.value.1 != Proxy(true)
    ensures r.Ok? ==> (r.value.2.Some? <==> |Split(raw, COMMA)| > 3)
    ensures r.Ok? && r.value.2.Some? ==> r.value.2.value == Split(raw, COMMA)[3..]
  {
    var splits := Split(raw, COMMA);
    if |splits| < 3 then Err(InvalidRule)
    else
      match ParseRule(splits[0], splits[1], env)
      case Err(e) => Err(e)
      case Ok(rule) =>
        match ParseDecision(splits[2])
        case Err(e) => Err(e)
        case Ok(d) => Ok((rule, d, if |splits| > 3 then Some(splits[3..]) else None))
  }

  /** The error `parse` reports, by the first field that is wrong. */
  lemma ParseErrors(raw: Bytes, env: Env)
    requires |Split(raw, COMMA)| >= 3
    ensures var f := Split(raw, COMMA);
            var t := Uppercase(f[0]);
            && (t !in TAGS ==> Parse(raw, env) == Err(UnknownRule))
            && ((t == Lit("IP-CIDR") || t == Lit("IP-CIDR6")) && |Split(f[1], SLASH)| != 2
                ==> Parse(raw, env) == Err(InvalidSubnet))
            && (ParseRule(f[0], f[1], env).Ok? && ToLower(f[2]) !in DECISION_WORDS
                ==> Parse(raw, env) == Err(InvalidDecision))
  {
    var f := Split(raw, COMMA);
    UnknownTagRejected(f[0], f[1], env);
    if Uppercase(f[0]) == Lit("IP-CIDR") || Uppercase(f[0]) == Lit("IP-CIDR6") {
      UpperCidrTag(f[0], f[1], env);
    }
  }

  lemma UnknownTagRejected(tag: Bytes, pat: Bytes, env: Env)
    ensures Uppercase(tag) !in TAGS ==> ParseRule(tag, pat, env) == Err(UnknownRule)
  {
  }

  lemma UpperCidrTag(tag: Bytes, pat: Bytes, env: Env)
    requires Uppercase(tag) == Lit("IP-CIDR") || Uppercase(tag) == Lit("IP-CIDR6")
    ensures ParseRule(tag, pat, env) == ParseSubnet(pat, env.sx)
  {
    TagWords();
  }

  const TAGS: set<Bytes> :=
    {Lit("DOMAIN"), Lit("DOMAIN-SUFFIX"), Lit("DOMAIN-REGEX"), Lit("DOMAIN-KEYWORD"),
     Lit("IPV4"), Lit("IPV6"), Lit("IP-CIDR"), Lit("IP-CIDR6")}

  const DECISION_WORDS: set<Bytes> := {Lit("direct"), Lit("deny"), Lit("proxy"), Lit("default")}

  /** The tags are upper-case, pairwise distinct where it matters, and free of ','. */
  lemma TagWords()
    ensures Plain(Lit("DOMAIN")) && Plain(Lit("DOMAIN-SUFFIX")) && Plain(Lit("DOMAIN-REGEX"))
    ensures Plain(Lit("DOMAIN-KEYWORD")) && Plain(Lit("IPV4")) && Plain(Lit("IPV6"))
    ensures Plain(Lit("IP-CIDR")) && Plain(Lit("IP-CIDR6"))
    ensures |Lit("DOMAIN")| == 6 && |Lit("DOMAIN-SUFFIX")| == 13 && |Lit("DOMAIN-REGEX")| == 12
    ensures |Lit("DOMAIN-KEYWORD")| == 14 && |Lit("IPV4")| == 4 && |Lit("IPV6")| == 4
    ensures |Lit("IP-CIDR")| == 7 && |Lit("IP-CIDR6")| == 8
  {
    DomainTags();
    IpTags();
  }

  lemma DomainTags()
    ensures Plain(Lit("DOMAIN")) && Plain(Lit("DOMAIN-SUFFIX")) && Plain(Lit("DOMAIN-REGEX")) && Plain(Lit("DOMAIN-KEYWORD"))
  {
    DomainTag();
    DomainSuffixTag();
    DomainRegexTag();
    DomainKeywordTag();
  }

  lemma DomainTag()
    ensures Plain(Lit("DOMAIN"))
  {
    UpperTag(Lit("DOMAIN"), [68, 79, 77, 65, 73, 78]);
  }

  lemma DomainSuffixTag()
    ensures Plain(Lit("DOMAIN-SUFFIX"))
  {
    UpperTag(Lit("DOMAIN-SUFFIX"), [68, 79, 77, 65, 73, 78, 45, 83, 85, 70, 70, 73, 88]);
  }

  lemma DomainRegexTag()
    ensures Plain(Lit("DOMAIN-REGEX"))
  {
    UpperTag(Lit("DOMAIN-REGEX"), [68, 79, 77, 65, 73, 78, 45, 82, 69, 71, 69, 88]);
  }

  lemma DomainKeywordTag()
    ensures Plain(Lit("DOMAIN-KEYWORD"))
  {
    UpperTag(Lit("DOMAIN-KEYWORD"), [68, 79, 77, 65, 73, 78, 45, 75, 69, 89, 87, 79, 82, 68]);
  }

  lemma IpTags()
    ensures Plain(Lit("IPV4")) && Plain(Lit("IPV6")) && Plain(Lit("IP-CIDR")) && Plain(Lit("IP-CIDR6"))
  {
    AddressTags();
    SubnetTags();
  }

  lemma AddressTags()
    ensures Plain(Lit("IPV4")) && Plain(Lit("IPV6"))
  {
    UpperTag(Lit("IPV4"), [73, 80, 86, 52]);
    UpperTag(Lit("IPV6"), [73, 80, 86, 54]);
  }

  lemma SubnetTags()
    ensures Plain(Lit("IP-CIDR")) && Plain(Lit("IP-CIDR6"))
  {
    UpperTag(Lit("IP-CIDR"), [73, 80, 45, 67, 73, 68, 82]);
    UpperTag(Lit("IP-CIDR6"), [73, 80, 45, 67, 73, 68, 82, 54]);
  }

  /** A tag that upper-casing leaves alone and that holds no ','. */
  predicate Plain(t: Bytes) { Uppercase(t) == t && COMMA !in t }

  lemma UpperTag(t: Bytes, bytes: Bytes)
    requires t == bytes && forall i :: 0 <= i < |bytes| ==> bytes[i] < 97 && bytes[i] != COMMA
    ensures Plain(t)
  {
    UppercaseAscii(t);
  }

  /** The decision words are lower-case, distinct and free of ','. */
  lemma DecisionWords()
    ensures forall w :: w in DECISION_WORDS ==> ToLower(w) == w && COMMA !in w
    ensures |Lit("direct")| == 6 && |Lit("deny")| == 4 && |Lit("proxy")| == 5 && |Lit("default")| == 7
  {
    LowerWord(Lit("direct"), [100, 105, 114, 101, 99, 116]);
    LowerWord(Lit("proxy"), [112, 114, 111, 120, 121]);
    LowerWord(Lit("default"), [100, 101, 102, 97, 117, 108, 116]);
    LowerWord(Lit("deny"), [100, 101, 110, 121]);
  }

  lemma LowerWord(w: Bytes, bytes: Bytes)
    requires w == bytes && forall i :: 0 <= i < |bytes| ==> bytes[i] > 90
    ensures ToLower(w) == w && COMMA !in w
  {
  }

  /** `parse` reads back every displayed decision, except that Proxy loses its remote-DNS flag. */
  lemma ParseShowDecision(d: Decision)
    ensures ParseDecision(ShowDecision(d)) == Ok(if d.Proxy? then Proxy(false) else d)
    ensures COMMA !in ShowDecision(d)
  {
    DecisionWords();
  }

  /** A rule whose text reads back: no ',' in its strings and a regex that compiles. */
  ghost predicate Reparsable(r: Rule, env: Env)
  {
    match r
    case DomainExact(d) => COMMA !in d
    case DomainSuffix(s) => COMMA !in s
    case DomainRegex(src) => COMMA !in src && env.re.compiles(src)
    case DomainKeyword(k) => COMMA !in k
    case IpExact(_) => true
    case IpCidr(_, _) => true
  }

  /** A displayed subnet "address/mask" parses back to the rule. */
  lemma ParseShowSubnet(ip: IpAddr, mask: Usize, sx: Ipv6Syntax)
    requires Sound(sx)
    ensures COMMA !in ShowIpAddr(ip, sx) + [SLASH] + ShowNat(mask)
    ensures ParseSubnet(ShowIpAddr(ip, sx) + [SLASH] + ShowNat(mask), sx) == Ok(IpCidr(ip, mask))
  {
    var a := ShowIpAddr(ip, sx);
    ShowIpAddrFree(ip, sx);
    SubnetFields(a, mask);
    ParseShowNat(mask, USIZE_MAX);
    ParseSubnetOf(a + [SLASH] + ShowNat(mask), sx, ip, mask);
  }

  /** "address/mask" splits at its one '/'. */
  lemma SubnetFields(a: Bytes, mask: nat)
    requires SLASH !in a && COMMA !in a
    ensures COMMA !in a + [SLASH] + ShowNat(mask)
    ensures Split(a + [SLASH] + ShowNat(mask), SLASH) == [a, ShowNat(mask)]
  {
    var m := ShowNat(mask);
    ShowNatHasNo(mask, COMMA);
    ShowNatHasNo(mask, SLASH);
    assert Join([a, m], SLASH) == a + [SLASH] + m;
    SplitJoin([a, m], SLASH);
  }

  /** `parse_subnet` of a text whose two halves parse. */
  lemma ParseSubnetOf(pat: Bytes, sx: Ipv6Syntax, ip: IpAddr, mask: Usize)
    requires |Split(pat, SLASH)| == 2
    requires ParseIpAddr(Split(pat, SLASH)[0], sx) == Some(ip)
    requires ParseUnsigned(Split(pat, SLASH)[1], USIZE_MAX) == Some(mask)
    ensures ParseSubnet(pat, sx) == Ok(IpCidr(ip, mask))
  {
  }

  /** The rule half of `parse` reads back the fields `Display` writes. */
  lemma ParseShowRuleFields(r: Rule, env: Env)
    requires Sound(env.sx) && Reparsable(r, env)
    ensures |RuleFields(r, env.sx)| == 2
    ensures forall k :: 0 <= k < 2 ==> COMMA !in RuleFields(r, env.sx)[k]
    ensures ParseRule(RuleFields(r, env.sx)[0], RuleFields(r, env.sx)[1], env) == Ok(r)
  {
    if r.IsDomainRule() {
      ParseShowDomainRule(r, env);
    } else if r.IpExact? {
      ParseShowIpRule(r.ip, env);
    } else {
      ParseShowCidrRule(r.ipAddr, r.mask, env);
    }
  }

  lemma ParseShowDomainRule(r: Rule, env: Env)
    requires r.IsDomainRule() && Reparsable(r, env)
    ensures |RuleFields(r, env.sx)| == 2
    ensures forall k :: 0 <= k < 2 ==> COMMA !in RuleFields(r, env.sx)[k]
    ensures ParseRule(RuleFields(r, env.sx)[0], RuleFields(r, env.sx)[1], env) == Ok(r)
  {
    TagWords();
  }

  lemma ParseShowIpRule(ip: IpAddr, env: Env)
    requires Sound(env.sx)
    ensures var f := RuleFields(IpExact(ip), env.sx);
            |f| == 2 && COMMA !in f[0] && COMMA !in f[1] && ParseRule(f[0], f[1], env) == Ok(IpExact(ip))
  {
    var f := RuleFields(IpExact(ip), env.sx);
    var a := ShowIpAddr(ip, env.sx);
    assert COMMA !in a && ParseIpAddr(a, env.sx) == Some(ip) by { ShowIpAddrFree(ip, env.sx); }
    if ip.V4? {
      assert f == [Lit("IPV4"), a];
      assert COMMA !in Lit("IPV4") && ParseRule(Lit("IPV4"), a, env) == Ok(IpExact(ip)) by {
        AddressTags();
        ParseAddressTag(Lit("IPV4"), a, env);
      }
    } else {
      assert f == [Lit("IPV6"), a];
      assert COMMA !in Lit("IPV6") && ParseRule(Lit("IPV6"), a, env) == Ok(IpExact(ip)) by {
        AddressTags();
        ParseAddressTag(Lit("IPV6"), a, env);
      }
    }
  }

  /** Either address tag sends the pattern to the address parser. */
  lemma ParseAddressTag(tag: Bytes, pat: Bytes, env: Env)
    requires tag == Lit("IPV4") || tag == Lit("IPV6")
    ensures ParseRule(tag, pat, env) == if ParseIpAddr(pat, env.sx).Some? then Ok(IpExact(ParseIpAddr(pat, env.sx).value)) else Err(InvalidAddr)
  {
    AddressTags();
  }

  lemma ParseShowCidrRule(ip: IpAddr, mask: Usize, env: Env)
    requires Sound(env.sx)
    ensures var f := RuleFields(IpCidr(ip, mask), env.sx);
            |f| == 2 && COMMA !in f[0] && COMMA !in f[1] && ParseRule(f[0], f[1], env) == Ok(IpCidr(ip, mask))
  {
    var f := RuleFields(IpCidr(ip, mask), env.sx);
    CidrFields(ip, mask, env.sx);
    IpTags();
    ParseShowSubnet(ip, mask, env.sx);
    ParseCidrTag(f[0], f[1], env);
  }

  lemma CidrFields(ip: IpAddr, mask: Usize, sx: Ipv6Syntax)
    ensures var f := RuleFields(IpCidr(ip, mask), sx);
            && |f| == 2 && (f[0] == Lit("IP-CIDR") || f[0] == Lit("IP-CIDR6"))
            && f[1] == ShowIpAddr(ip, sx) + [SLASH] + ShowNat(mask)
  {
  }

  /** Either subnet tag sends the pattern to `parse_subnet`. */
  lemma ParseCidrTag(tag: Bytes, pat: Bytes, env: Env)
    requires tag == Lit("IP-CIDR") || tag == Lit("IP-CIDR6")
    ensures ParseRule(tag, pat, env) == ParseSubnet(pat, env.sx)
  {
    TagWords();
  }

  /**
   * `parse` reads back a displayed rule followed by a displayed decision and
   * extra fields: the same rule and decision (Proxy without remote DNS), and
   * the extra fields exactly when there are any.
   */
  lemma ParseShow(r: Rule, d: Decision, args: Args, env: Env)
    requires Sound(env.sx) && Reparsable(r, env) && d != Proxy(true)
    requires forall k :: 0 <= k < |args| ==> COMMA !in args[k]
    ensures Parse(ShowRule(r, env.sx) + [COMMA] + Join([ShowDecision(d)] + args, COMMA), env)
            == Ok((r, d, if args == [] then None else Some(args)))
  {
    var fields := RuleTextFields(r, d, args, env);
    FieldsParse(r, d, args, env, fields);
    ParseOfFields(ShowRule(r, env.sx) + [COMMA] + Join([ShowDecision(d)] + args, COMMA), env, fields, r, Proxied(d));
  }

  /** The decision `parse` reads back from a displayed one: Proxy loses its remote-DNS flag. */
  function Proxied(d: Decision): Decision
  {
    if d.Proxy? then Proxy(false) else d
  }

  /** Each field of a displayed rule line parses as what it shows. */
  lemma FieldsParse(r: Rule, d: Decision, args: Args, env: Env, fields: seq<Bytes>)
    requires Sound(env.sx) && Reparsable(r, env)
    requires fields == RuleFields(r, env.sx) + [ShowDecision(d)] + args
    ensures |fields| == 3 + |args| && fields[3..] == args
    ensures ParseRule(fields[0], fields[1], env) == Ok(r) && ParseDecision(fields[2]) == Ok(Proxied(d))
  {
    var rf := RuleFields(r, env.sx);
    ParseShowRuleFields(r, env);
    ParseShowDecision(d);
    assert fields[0] == rf[0] && fields[1] == rf[1] && fields[2] == ShowDecision(d) && fields[3..] == args;
  }

  /** `parse` of a line whose fields hold a rule and a decision. */
  lemma ParseOfFields(raw: Bytes, env: Env, fields: seq<Bytes>, r: Rule, d: Decision)
    requires Split(raw, COMMA) == fields && |fields| >= 3
    requires ParseRule(fields[0], fields[1], env) == Ok(r) && ParseDecision(fields[2]) == Ok(d)
    ensures Parse(raw, env) == Ok((r, d, if |fields| > 3 then Some(fields[3..]) else None))
  {
  }

  /** The comma-separated fields of a displayed rule, decision and extra fields. */
  lemma RuleTextFields(r: Rule, d: Decision, args: Args, env: Env) returns (fields: seq<Bytes>)
    requires Sound(env.sx) && Reparsable(r, env)
    requires forall k :: 0 <= k < |args| ==> COMMA !in args[k]
    ensures fields == RuleFields(r, env.sx) + [ShowDecision(d)] + args
    ensures Split(ShowRule(r, env.sx) + [COMMA] + Join([ShowDecision(d)] + args, COMMA), COMMA) == fields
  {
    var rf := RuleFields(r, env.sx);
    var tail := [ShowDecision(d)] + args;
    ParseShowRuleFields(r, env);
    ParseShowDecision(d);
    JoinAppend(rf, tail, COMMA);
    fields := rf + tail;
    forall k | 0 <= k < |fields| ensures COMMA !in fields[k] {
      if k >= 2 { assert fields[k] == tail[k - 2]; }
    }
    SplitJoin(fields, COMMA);
  }

  // ---- enforcement ----

  /** What `enforce` returns: a decision and the arguments of the rule that gave it. */
  type Outcome = (Decision, Option<Args>)

  /** What a policy gives for a destination: an outcome, or the panic that ends the call. */
  type Verdict = Result<Outcome, Panic>

  /** A verdict the scan over a list passes over: no panic, and the decision is Default. */
  predicate Passes(v: Verdict) { v.Ok? && v.value.0 == Default }

  /**
   * `Policy for (Rule, Decision, Option<Args>)`: the rule's decision and
   * arguments when it matches, (Default, None) when it does not, and the
   * panic of `is_match` when there is one.
   */
  function TupleEnforce(t: Parsed, dst: DstAddr, re: RegexEngine, m: Matching): (v: Verdict)
    ensures v.Err? <==> IsMatch(t.0, dst, re, m).Err?
    ensures v.Ok? ==> v.value == if IsMatch(t.0, dst, re, m) == Ok(true) then (t.1, t.2) else (Default, None)
  {
    match IsMatch(t.0, dst, re, m)
    case Err(e) => Err(e)
    case Ok(b) => Ok(if b then (t.1, t.2) else (Default, None))
  }

  function TuplePolicy(dst: DstAddr, re: RegexEngine, m: Matching): Parsed -> Verdict
  {
    (t: Parsed) => TupleEnforce(t, dst, re, m)
  }

  /** The first verdict the scan does not pass over, or Ok((Default, None)) when it passes over them all. */
  function FirstOutcome(os: seq<Verdict>): (r: Verdict)
    ensures r == Ok((Default, None)) <==> forall i :: 0 <= i < |os| ==> Passes(os[i])
    ensures r != Ok((Default, None)) ==> exists i :: 0 <= i < |os| && os[i] == r && !Passes(r) && forall j :: 0 <= j < i ==> Passes(os[j])
  {
    if os == [] then Ok((Default, None))
    else if !Passes(os[0]) then os[0]
    else
      var r := FirstOutcome(os[1..]);
      assert forall i :: 1 <= i < |os| ==> os[i] == os[1..][i - 1];
      r
  }

  /** The verdicts of a list of policies, in order. */
  function Outcomes<P>(ps: seq<P>, policy: P -> Verdict): (os: seq<Verdict>)
    ensures |os| == |ps|
  {
    seq(|ps|, i requires 0 <= i < |ps| => policy(ps[i]))
  }

  /**
   * `Policy for Vec<P>` and `for &[P]`: scan in order and stop at the first
   * decision that is not Default, or at the first panic.
   */
  method Enforce<P>(ps: seq<P>, policy: P -> Verdict) returns (r: Verdict)
    ensures r == FirstOutcome(Outcomes(ps, policy))
  {
    ghost var os := Outcomes(ps, policy);
    for i := 0 to |ps|
      invariant forall j :: 0 <= j < i ==> Passes(os[j])
    {
      var o := policy(ps[i]);
      if o.Err? || !o.value.0.IsDefault() {
        assert os[i] == o;
        return o;
      }
    }
    return Ok((Default, None));
  }

  /** A parsed rule the scan passes over: it does not match, or it matches and says Default. */
  predicate PassedOver(t: Parsed, dst: DstAddr, re: RegexEngine, m: Matching)
  {
    IsMatch(t.0, dst, re, m) == Ok(false) || (IsMatch(t.0, dst, re, m) == Ok(true) && t.1 == Default)
  }

  /**
   * Over a list of parsed rules, `enforce` gives the decision and arguments of
   * the first rule that matches and does not say Default, or the panic of the
   * first rule whose match panics, whichever comes first; a matching rule
   * that says Default, and its arguments, are passed over.
   */
  lemma EnforceRules(rules: seq<Parsed>, dst: DstAddr, re: RegexEngine, m: Matching)
    ensures var o := FirstOutcome(Outcomes(rules, TuplePolicy(dst, re, m)));
            && (o == Ok((Default, None)) <==> forall i :: 0 <= i < |rules| ==> PassedOver(rules[i], dst, re, m))
            && (o != Ok((Default, None)) ==>
                  exists i :: 0 <= i < |rules| && !PassedOver(rules[i], dst, re, m)
                    && o == (if IsMatch(rules[i].0, dst, re, m).Err? then Err(IsMatch(rules[i].0, dst, re, m).error)
                             else Ok((rules[i].1, rules[i].2)))
                    && forall j :: 0 <= j < i ==> PassedOver(rules[j], dst, re, m))
  {
    OutcomesOfRules(rules, dst, re, m);
  }

  /** The verdict of each parsed rule, and which of them the scan passes over. */
  lemma OutcomesOfRules(rules: seq<Parsed>, dst: DstAddr, re: RegexEngine, m: Matching)
    ensures var os := Outcomes(rules, TuplePolicy(dst, re, m));
            forall i :: 0 <= i < |rules| ==> os[i] == TupleEnforce(rules[i], dst, re, m)
                                             && (Passes(os[i]) <==> PassedOver(rules[i], dst, re, m))
  {
  }
}
