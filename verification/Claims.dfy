/** Claim binding (grpcx/claims_signing.go, grpcx/metadata.go, middleware/claims/claims.go): the
    canonical message a gateway signs, its verification, and what a handler may see.

    The MAC is a parameter; nothing is assumed of it except where a statement says so. */
module Claims {
  import opened Bytes
  import opened Seqs

  // --------------------------------------------------------- decimal numbers

  predicate IsDigit(c: char) {
    '0' <= c <= '9'
  }

  function DigitOf(n: nat): char
    requires n < 10
  {
    '0' + n as char
  }

  function Decimal(n: nat): (s: string)
    ensures s != [] && forall i :: 0 <= i < |s| ==> IsDigit(s[i])
  {
    if n < 10 then [DigitOf(n)] else Decimal(n / 10) + [DigitOf(n % 10)]
  }

  function DecimalValue(s: string): nat
    requires forall i :: 0 <= i < |s| ==> IsDigit(s[i])
  {
    if s == [] then 0
    else
      var last := s[|s| - 1];
      assert IsDigit(last);
      DecimalValue(s[..|s| - 1]) * 10 + (last - '0') as int
  }

  /** strconv.FormatInt(n, 10). */
  function FormatInt(n: int): string {
    if n < 0 then "-" + Decimal(-n) else Decimal(n)
  }

  const INT64_MAX := 0x7FFF_FFFF_FFFF_FFFF
  const INT64_MIN := -0x8000_0000_0000_0000

  predicate AllDigits(s: string) {
    s != [] && forall i :: 0 <= i < |s| ==> IsDigit(s[i])
  }

  /** strconv.ParseInt(s, 10, 64): an optional sign, then digits, in range. */
  function ParseInt(s: string): Option<int> {
    var signed := s != [] && (s[0] == '+' || s[0] == '-');
    var digits := if signed then s[1..] else s;
    if !AllDigits(digits) then None
    else
      var n: int := DecimalValue(digits);
      var v := if signed && s[0] == '-' then -n else n;
      if INT64_MIN <= v <= INT64_MAX then Some(v) else None
  }

  /** strconv.ParseUint(s, 10, 32). */
  function ParseUint32(s: string): Option<nat> {
    if AllDigits(s) && DecimalValue(s) < TWO_32 then Some(DecimalValue(s)) else None
  }

  lemma {:induction false} DecimalRoundTrip(n: nat)
    ensures DecimalValue(Decimal(n)) == n
  {
    if n >= 10 {
      DecimalRoundTrip(n / 10);
      assert Decimal(n)[..|Decimal(n)| - 1] == Decimal(n / 10);
    }
  }

  lemma ParseInvertsFormat(n: int)
    requires INT64_MIN <= n <= INT64_MAX
    ensures ParseInt(FormatInt(n)) == Some(n)
  {
    var d := Decimal(if n < 0 then -n else n);
    DecimalRoundTrip(if n < 0 then -n else n);
    if n < 0 {
      assert ("-" + d)[1..] == d;
    } else {
      assert IsDigit(d[0]);
    }
  }

  /** What is read as a 64-bit number: digits with at most one sign in front, in range. */
  lemma ParseMeans(digits: string)
    requires AllDigits(digits)
    ensures var n: int := DecimalValue(digits);
            && ParseInt(digits) == (if n <= 0x7FFF_FFFF_FFFF_FFFF then Some(n) else None)
            && ParseInt("+" + digits) == (if n <= 0x7FFF_FFFF_FFFF_FFFF then Some(n) else None)
            && ParseInt("-" + digits) == (if n <= 0x8000_0000_0000_0000 then Some(-n) else None)
  {
    assert IsDigit(digits[0]);
    assert ("+" + digits)[1..] == digits && ("-" + digits)[1..] == digits;
  }

  lemma ParseRejects(s: string)
    requires ParseInt(s).Some?
    ensures AllDigits(s) || (s != [] && (s[0] == '+' || s[0] == '-') && AllDigits(s[1..]))
  {
  }

  lemma NoNewlineInInt(n: int)
    ensures '\n' !in FormatInt(n)
  {
  }

  // ------------------------------------------------------- canonical message

  datatype UserClaims = UserClaims(tenant: string, user: string, username: string, roles: string)
  {
    predicate NewlineFree() {
      '\n' !in tenant && '\n' !in user && '\n' !in username && '\n' !in roles
    }
  }

  function Canonical(c: UserClaims, exp: int): string {
    c.tenant + "\n" + c.user + "\n" + c.username + "\n" + c.roles + "\n" + FormatInt(exp)
  }

  lemma CanonicalIsJoin(c: UserClaims, exp: int)
    ensures Canonical(c, exp) == Join([c.tenant, c.user, c.username, c.roles, FormatInt(exp)], '\n')
  {
    var e := FormatInt(exp);
    assert Join([e], '\n') == e;
    JoinTwo(c.roles, [e]);
    JoinTwo(c.username, [c.roles, e]);
    JoinTwo(c.user, [c.username, c.roles, e]);
    JoinTwo(c.tenant, [c.user, c.username, c.roles, e]);
    assert c.tenant + "\n" + (c.user + "\n" + (c.username + "\n" + (c.roles + "\n" + e))) == Canonical(c, exp);
  }

  lemma JoinTwo(x: string, rest: seq<string>)
    requires rest != []
    ensures Join([x] + rest, '\n') == x + "\n" + Join(rest, '\n')
  {
  }

  /** The encoding is unambiguous for newline-free claims and int64 expiries. */
  lemma CanonicalInjective(c: UserClaims, exp: int, d: UserClaims, exp2: int)
    requires c.NewlineFree() && d.NewlineFree()
    requires INT64_MIN <= exp <= INT64_MAX && INT64_MIN <= exp2 <= INT64_MAX
    requires Canonical(c, exp) == Canonical(d, exp2)
    ensures c == d && exp == exp2
  {
    var cs := [c.tenant, c.user, c.username, c.roles, FormatInt(exp)];
    var ds := [d.tenant, d.user, d.username, d.roles, FormatInt(exp2)];
    CanonicalIsJoin(c, exp);
    CanonicalIsJoin(d, exp2);
    NoNewlineInInt(exp);
    NoNewlineInInt(exp2);
    SplitInvertsJoin(cs, '\n');
    SplitInvertsJoin(ds, '\n');
    assert cs == ds;
    assert cs[0] == ds[0] && cs[1] == ds[1] && cs[2] == ds[2] && cs[3] == ds[3] && cs[4] == ds[4];
    ParseInvertsFormat(exp);
    ParseInvertsFormat(exp2);
  }

  function Newlines(s: string): nat {
    if s == [] then 0 else (if s[0] == '\n' then 1 else 0) + Newlines(s[1..])
  }

  lemma {:induction false} NewlinesAdd(a: string, b: string)
    ensures Newlines(a + b) == Newlines(a) + Newlines(b)
  {
    if a == [] {
      assert a + b == b;
    } else {
      assert (a + b)[1..] == a[1..] + b;
      NewlinesAdd(a[1..], b);
    }
  }

  lemma {:induction false} NoNewlines(s: string)
    ensures Newlines(s) == 0 <==> '\n' !in s
  {
    if s != [] {
      NoNewlines(s[1..]);
      assert s == [s[0]] + s[1..];
    }
  }

  lemma NewlinesAfter(a: string, b: string)
    ensures Newlines(a + "\n" + b) == Newlines(a) + 1 + Newlines(b)
  {
    assert ("\n" + b)[1..] == b;
    assert a + "\n" + b == a + ("\n" + b);
    NewlinesAdd(a, "\n" + b);
  }

  /** The message has four newlines of its own. */
  lemma CanonicalNewlines(c: UserClaims, exp: int)
    ensures Newlines(Canonical(c, exp)) == 4 <==> c.NewlineFree()
  {
    var e := FormatInt(exp);
    NewlinesAfter(c.tenant, c.user);
    NewlinesAfter(c.tenant + "\n" + c.user, c.username);
    NewlinesAfter(c.tenant + "\n" + c.user + "\n" + c.username, c.roles);
    NewlinesAfter(c.tenant + "\n" + c.user + "\n" + c.username + "\n" + c.roles, e);
    NoNewlineInInt(exp);
    NoNewlines(e);
    NoNewlines(c.tenant);
    NoNewlines(c.user);
    NoNewlines(c.username);
    NoNewlines(c.roles);
  }

  lemma {:induction false} BreakAt(s: string) returns (a: string, b: string)
    requires '\n' in s
    ensures s == a + "\n" + b
  {
    if s[0] == '\n' {
      a, b := "", s[1..];
    } else {
      var rest;
      rest, b := BreakAt(s[1..]);
      a := [s[0]] + rest;
      assert s == [s[0]] + s[1..];
    }
  }

  /** Around a newline in a claim the message can be grouped in another way. */
  lemma Regrouped(c: UserClaims, exp: int) returns (d: UserClaims)
    requires !c.NewlineFree()
    ensures d != c && Canonical(d, exp) == Canonical(c, exp)
  {
    if '\n' in c.tenant {
      var a, b := BreakAt(c.tenant);
      d := UserClaims(a, b + "\n" + c.user, c.username, c.roles);
      assert d.tenant + "\n" + d.user == c.tenant + "\n" + c.user;
      assert |d.tenant| < |c.tenant|;
    } else if '\n' in c.user {
      var a, b := BreakAt(c.user);
      d := UserClaims(c.tenant + "\n" + a, b, c.username, c.roles);
      assert d.tenant + "\n" + d.user == c.tenant + "\n" + c.user;
      assert |d.user| < |c.user|;
    } else if '\n' in c.username {
      var a, b := BreakAt(c.username);
      d := UserClaims(c.tenant, c.user + "\n" + a, b, c.roles);
      assert d.tenant + "\n" + d.user + "\n" + d.username == c.tenant + "\n" + c.user + "\n" + c.username;
      assert |d.username| < |c.username|;
    } else {
      var a, b := BreakAt(c.roles);
      d := UserClaims(c.tenant, c.user, c.username + "\n" + a, b);
      assert d.tenant + "\n" + d.user + "\n" + d.username + "\n" + d.roles == c.tenant + "\n" + c.user + "\n" + c.username + "\n" + c.roles;
      assert |d.roles| < |c.roles|;
    }
  }

  /** d with expiry exp2 is something else than c with exp, and has the same message. */
  ghost predicate Confused(c: UserClaims, exp: int, d: UserClaims, exp2: int) {
    INT64_MIN <= exp2 <= INT64_MAX && (d != c || exp2 != exp) && Canonical(d, exp2) == Canonical(c, exp)
  }

  /** Other claims, or another expiry, share the message if and only if some claim contains
      a newline. */
  lemma NewlinesAreAmbiguous(c: UserClaims, exp: int)
    requires INT64_MIN <= exp <= INT64_MAX
    ensures (exists d, exp2 :: Confused(c, exp, d, exp2)) <==> !c.NewlineFree()
  {
    if c.NewlineFree() {
      forall d, exp2 ensures !Confused(c, exp, d, exp2) {
        if Confused(c, exp, d, exp2) {
          CanonicalNewlines(c, exp);
          CanonicalNewlines(d, exp2);
          CanonicalInjective(c, exp, d, exp2);
          assert false;
        }
      }
    } else {
      var d := Regrouped(c, exp);
      assert Confused(c, exp, d, exp);
    }
  }

  /** For instance these two, signed alike. */
  lemma TwoClaimsOneMessage(exp: int)
    ensures Canonical(UserClaims("a\n", "b", "", ""), exp) == Canonical(UserClaims("a", "\nb", "", ""), exp)
  {
  }

  // ----------------------------------------------------- signing, verifying

  type Mac = (string, string) -> bytes

  const HEX := "0123456789abcdef"

  function Hex(b: bytes): string {
    if b == [] then ""
    else
      var x: int := b[0];
      [HEX[x / 16], HEX[x % 16]] + Hex(b[1..])
  }

  lemma {:induction false} HexInjective(a: bytes, b: bytes)
    requires Hex(a) == Hex(b)
    ensures a == b
    decreases |a|
  {
    if a == [] || b == [] {
      assert |Hex(a)| == 0 && |Hex(b)| == 0;
    } else {
      var x: int, y: int := a[0], b[0];
      assert Hex(a)[0] == HEX[x / 16] && Hex(b)[0] == HEX[y / 16];
      assert Hex(a)[1] == HEX[x % 16] && Hex(b)[1] == HEX[y % 16];
      HexDigits(x / 16, y / 16);
      HexDigits(x % 16, y % 16);
      assert Hex(a)[2..] == Hex(a[1..]) && Hex(b)[2..] == Hex(b[1..]);
      HexInjective(a[1..], b[1..]);
      assert a == [a[0]] + a[1..] && b == [b[0]] + b[1..];
    }
  }

  lemma HexDigits(x: nat, y: nat)
    requires x < 16 && y < 16 && HEX[x] == HEX[y]
    ensures x == y
  {
  }

  function SignClaims(mac: Mac, secret: string, c: UserClaims, exp: int): string {
    Hex(mac(secret, Canonical(c, exp)))
  }

  type MD = map<string, seq<string>>

  const TENANT := "x-md-global-tenant-id"
  const USER := "x-md-global-user-id"
  const USERNAME := "x-md-global-username"
  const ROLES := "x-md-global-roles"
  const SIG := "x-md-global-claims-sig"
  const EXP := "x-md-global-claims-exp"

  const SIGNED_KEYS := [TENANT, USER, USERNAME, ROLES]

  /** firstMD, and GetMetadataValue on a context with metadata. */
  function First(md: MD, key: string): string {
    if key in md && |md[key]| > 0 then md[key][0] else ""
  }

  function ReadClaims(md: MD): UserClaims {
    UserClaims(First(md, TENANT), First(md, USER), First(md, USERNAME), First(md, ROLES))
  }

  function Verify(mac: Mac, md: MD, secret: string, now: int): bool {
    if secret == "" then false
    else
      var sig := First(md, SIG);
      if sig == "" then false
      else
        match ParseInt(First(md, EXP))
        case None => false
        case Some(exp) => now <= exp && sig == SignClaims(mac, secret, ReadClaims(md), exp)
  }

  /** What the gateway sends is accepted until it expires. */
  lemma SignThenVerify(mac: Mac, md: MD, secret: string, exp: int, now: int)
    requires secret != "" && INT64_MIN <= exp <= INT64_MAX && now <= exp
    requires First(md, EXP) == FormatInt(exp)
    requires First(md, SIG) == SignClaims(mac, secret, ReadClaims(md), exp)
    requires mac(secret, Canonical(ReadClaims(md), exp)) != []
    ensures Verify(mac, md, secret, now)
  {
    ParseInvertsFormat(exp);
  }

  /** v is what the header says: its first value, or nothing if there is none. */
  ghost predicate Says(md: MD, key: string, v: string) {
    if key in md && md[key] != [] then exists rest :: md[key] == [v] + rest else v == ""
  }

  lemma FirstSays(md: MD, key: string, v: string)
    ensures Says(md, key, v) <==> First(md, key) == v
  {
    if key in md && md[key] != [] {
      assert md[key] == [md[key][0]] + md[key][1..];
    }
  }

  /** What verifies, header by header: a signature that is the hex MAC, under the secret, of
      the four claims and the expiry, one per line, before that expiry. */
  lemma VerifiedHeaders(mac: Mac, md: MD, secret: string, now: int, tenant: string, user: string, username: string, roles: string, exp: int)
    requires Says(md, "x-md-global-tenant-id", tenant) && Says(md, "x-md-global-user-id", user)
    requires Says(md, "x-md-global-username", username) && Says(md, "x-md-global-roles", roles)
    requires Says(md, "x-md-global-claims-exp", FormatInt(exp)) && INT64_MIN <= exp <= INT64_MAX
    ensures Verify(mac, md, secret, now) <==>
              && secret != "" && now <= exp
              && var sig := Hex(mac(secret, tenant + "\n" + user + "\n" + username + "\n" + roles + "\n" + FormatInt(exp)));
                 sig != "" && Says(md, "x-md-global-claims-sig", sig)
  {
    FirstSays(md, TENANT, tenant);
    FirstSays(md, USER, user);
    FirstSays(md, USERNAME, username);
    FirstSays(md, ROLES, roles);
    FirstSays(md, EXP, FormatInt(exp));
    FirstSays(md, SIG, Hex(mac(secret, tenant + "\n" + user + "\n" + username + "\n" + roles + "\n" + FormatInt(exp))));
    ParseInvertsFormat(exp);
  }

  /** One signature accepted with two different claim sets or expiries is a collision of
      the MAC on the two canonical messages. */
  lemma TamperingNeedsCollision(mac: Mac, md: MD, md2: MD, secret: string, now: int, now2: int)
    requires Verify(mac, md, secret, now) && Verify(mac, md2, secret, now2)
    requires First(md, SIG) == First(md2, SIG)
    requires ReadClaims(md).NewlineFree() && ReadClaims(md2).NewlineFree()
    ensures var exp, exp2 := ParseInt(First(md, EXP)).value, ParseInt(First(md2, EXP)).value;
            var msg, msg2 := Canonical(ReadClaims(md), exp), Canonical(ReadClaims(md2), exp2);
            && mac(secret, msg) == mac(secret, msg2)
            && (msg == msg2 <==> ReadClaims(md) == ReadClaims(md2) && exp == exp2)
  {
    var exp, exp2 := ParseInt(First(md, EXP)).value, ParseInt(First(md2, EXP)).value;
    var msg, msg2 := Canonical(ReadClaims(md), exp), Canonical(ReadClaims(md2), exp2);
    HexInjective(mac(secret, msg), mac(secret, msg2));
    if msg == msg2 {
      CanonicalInjective(ReadClaims(md), exp, ReadClaims(md2), exp2);
    }
  }

  // ------------------------------------------------------------------ roles

  /** Split on commas, drop empties. */
  function RolesOf(s: string): seq<string> {
    Filter(Split(s, ','), r => r != "")
  }

  /** GetRolesFromContext's index loop. */
  method GetRoles(s: string) returns (roles: seq<string>)
    ensures roles == RolesOf(s)
  {
    roles := [];
    if s == "" {
      return;
    }
    var start := 0;
    for i := 0 to |s|
      invariant 0 <= start <= i
      invariant ',' !in s[start..i]
      invariant RolesOf(s) == roles + RolesOf(s[start..])
    {
      assert s[start..i + 1] == s[start..i] + [s[i]];
      if s[i] == ',' {
        var role := s[start..i];
        assert RolesOf(s) == (if role != "" then roles + [role] else roles) + RolesOf(s[i + 1..]) by { RolesStep(s, roles, start, i); }
        if role != "" {
          roles := roles + [role];
        }
        start := i + 1;
      }
    }
    assert s[start..|s|] == s[start..];
    LastRole(s[start..]);
    if start < |s| {
      var role := s[start..];
      if role != "" {
        roles := roles + [role];
      }
    }
  }

  lemma LastRole(s: string)
    requires ',' !in s
    ensures RolesOf(s) == if s != "" then [s] else []
  {
    SplitPiece(s, [], ',');
    assert [s][1..] == [];
  }

  lemma RolesStep(s: string, roles: seq<string>, start: nat, i: nat)
    requires start <= i < |s| && s[i] == ',' && ',' !in s[start..i]
    requires RolesOf(s) == roles + RolesOf(s[start..])
    ensures RolesOf(s) == (if s[start..i] != "" then roles + [s[start..i]] else roles) + RolesOf(s[i + 1..])
  {
    CutRoleAt(s, start, i);
    var role, rest := s[start..i], RolesOf(s[i + 1..]);
    if role != "" {
      assert roles + ([role] + rest) == roles + [role] + rest;
    } else {
      assert [] + rest == rest;
    }
  }

  lemma CutRoleAt(s: string, start: nat, i: nat)
    requires start <= i < |s| && s[i] == ',' && ',' !in s[start..i]
    ensures RolesOf(s[start..]) == (if s[start..i] != "" then [s[start..i]] else []) + RolesOf(s[i + 1..])
  {
    SliceOfRest(s, start, 0, i - start);
    SliceOfRest(s, start, i - start + 1, i - start + 1);
    CutRole(s[start..], i - start);
  }

  /** The first comma ends the first role. */
  lemma CutRole(s: string, i: nat)
    requires i < |s| && s[i] == ',' && ',' !in s[..i]
    ensures RolesOf(s) == (if s[..i] != "" then [s[..i]] else []) + RolesOf(s[i + 1..])
  {
    var role, rest := s[..i], s[i + 1..];
    assert s == role + [','] + rest;
    SplitPiece(role, rest, ',');
    FilterAppend([role], Split(rest, ','), r => r != "");
  }

  /** Joining comma-free non-empty roles and reading them back is the identity. */
  /** Reading inverts joining, but for empty pieces. Every string is such a join. */
  lemma RolesOfJoin(parts: seq<string>)
    requires parts != [] && forall i :: 0 <= i < |parts| ==> ',' !in parts[i]
    ensures RolesOf(Join(parts, ',')) == Filter(parts, r => r != "")
    ensures forall r :: r in RolesOf(Join(parts, ',')) <==> r in parts && r != ""
  {
    SplitInvertsJoin(parts, ',');
    FilterMembers(parts, r => r != "");
  }

  /** So roles that are neither empty nor contain a comma are read back as they were. */
  lemma RolesRoundTrip(roles: seq<string>)
    requires forall i :: 0 <= i < |roles| ==> roles[i] != "" && ',' !in roles[i]
    ensures RolesOf(Join(roles, ',')) == roles
  {
    if roles == [] {
      assert Split<char>([], ',') == [[]];
    } else {
      RolesOfJoin(roles);
      FilterAll(roles, r => r != "");
    }
  }

  // ------------------------------------------------------------ the handler

  /** A context's incoming metadata, if it has any. */
  type Context = Option<MD>

  function Value(ctx: Context, key: string): string {
    if ctx.None? then "" else First(ctx.value, key)
  }

  const PLATFORM_ADMIN := "platform:admin"
  const SUPER_ADMIN := "super:admin"

  predicate IsPlatformAdmin(ctx: Context) {
    PLATFORM_ADMIN in RolesOf(Value(ctx, ROLES)) || SUPER_ADMIN in RolesOf(Value(ctx, ROLES))
  }

  function TenantID(ctx: Context): nat {
    var t := ParseUint32(Value(ctx, TENANT));
    if t.None? then 0 else t.value
  }

  /** Who is a platform administrator, in terms of the pieces of the roles header. */
  lemma AdminByRole(ctx: Context, parts: seq<string>)
    requires parts != [] && (forall i :: 0 <= i < |parts| ==> ',' !in parts[i]) && Value(ctx, ROLES) == Join(parts, ',')
    ensures IsPlatformAdmin(ctx) <==> "platform:admin" in parts || "super:admin" in parts
  {
    RolesOfJoin(parts);
  }

  /** A decimal number below 2^32 is the tenant; anything else, a longer number included,
      counts as none. */
  lemma TenantByHeader(ctx: Context, n: nat)
    ensures Value(ctx, TENANT) == Decimal(n) ==> TenantID(ctx) == if n < TWO_32 then n else 0
    ensures !AllDigits(Value(ctx, TENANT)) ==> TenantID(ctx) == 0
  {
    DecimalRoundTrip(n);
  }

  /** Digits, most significant first, and a sign only in front of negative numbers. */
  lemma FormatExamples()
    ensures FormatInt(0) == "0" && FormatInt(1203) == "1203" && FormatInt(-57) == "-57"
    ensures Hex([0, 10, 255]) == "000aff"
  {
    assert Decimal(12) == "12" && Decimal(120) == "120" && Decimal(1203) == "1203";
    assert [10, 255][1..] == [255] && [0, 10, 255][1..] == [10, 255];
    assert Hex([255]) == "ff" && Hex([10, 255]) == "0aff";
  }

  method HasUserClaims(md: MD) returns (has: bool)
    ensures has == AnyClaim(md)
    ensures has <==> First(md, TENANT) != "" || First(md, USER) != "" || First(md, USERNAME) != "" || First(md, ROLES) != ""
  {
    for i := 0 to |SIGNED_KEYS|
      invariant forall k :: 0 <= k < i ==> First(md, SIGNED_KEYS[k]) == ""
    {
      if First(md, SIGNED_KEYS[i]) != "" {
        return true;
      }
    }
    assert First(md, SIGNED_KEYS[0]) == "" && First(md, SIGNED_KEYS[1]) == "" && First(md, SIGNED_KEYS[2]) == ""
      && First(md, SIGNED_KEYS[3]) == "";
    return false;
  }

  predicate AnyClaim(md: MD) {
    exists k :: 0 <= k < |SIGNED_KEYS| && First(md, SIGNED_KEYS[k]) != ""
  }

  function Stripped(md: MD): MD {
    md - {TENANT, USER, USERNAME, ROLES, SIG, EXP}
  }

  method StripUserClaims(md: MD) returns (stripped: MD)
    ensures stripped == Stripped(md)
    ensures ReadClaims(stripped) == UserClaims("", "", "", "") && !AnyClaim(stripped)
    ensures stripped.Keys == md.Keys - {"x-md-global-tenant-id", "x-md-global-user-id", "x-md-global-username", "x-md-global-roles",
                                        "x-md-global-claims-sig", "x-md-global-claims-exp"}
    ensures forall k :: k in stripped ==> stripped[k] == md[k]
  {
    stripped := md;
    ghost var gone: set<string> := {};
    for i := 0 to |SIGNED_KEYS|
      invariant stripped == md - gone && gone == set k | 0 <= k < i :: SIGNED_KEYS[k]
    {
      stripped := stripped - {SIGNED_KEYS[i]};
      gone := gone + {SIGNED_KEYS[i]};
    }
    assert gone == {SIGNED_KEYS[0], SIGNED_KEYS[1], SIGNED_KEYS[2], SIGNED_KEYS[3]};
    stripped := stripped - {SIG};
    stripped := stripped - {EXP};
  }

  /** The context the wrapped handler receives, with the mode and the secret taken from the
      options or else from the environment. Any mode but "off" and "enforce" acts as
      "warn". */
  method Server(mac: Mac, options: Options, env: Options, now: int, ctx: Context) returns (out: Context)
    ensures out == Passed(mac, ResolveMode(options.mode, env.mode), ResolveSecret(options.secret, env.secret), now, ctx)
    ensures var enforce := options.mode == "enforce" || (options.mode == "" && env.mode == "enforce");
            var secret := if options.secret != "" then options.secret else env.secret;
            if enforce && ctx.Some? && AnyClaim(ctx.value) && !Verify(mac, ctx.value, secret, now)
            then out.Some? && !AnyClaim(out.value) && forall k :: Carried(k) ==> Same(ctx.value, out.value, k)
            else out == ctx
  {
    var mode, secret := options.mode, options.secret;
    if secret == "" {
      secret := env.secret;
    }
    if mode == "" {
      mode := env.mode;
    }
    if mode == "" {
      mode := "warn";
    }
    if mode == "off" {
      return ctx;
    }
    if ctx.None? {
      return ctx;
    }
    var claims := HasUserClaims(ctx.value);
    if !claims {
      return ctx;
    }
    if Verify(mac, ctx.value, secret, now) {
      return ctx;
    }
    if mode == "enforce" {
      var stripped := StripUserClaims(ctx.value);
      return Some(stripped);
    }
    return ctx;
  }

  /** Not one of the six keys of the assertion. */
  predicate Carried(k: string) {
    k !in {TENANT, USER, USERNAME, ROLES, SIG, EXP}
  }

  predicate Same(a: MD, b: MD, k: string) {
    (k in a <==> k in b) && (k in a ==> a[k] == b[k])
  }

  function Passed(mac: Mac, mode: string, secret: string, now: int, ctx: Context): Context {
    if mode == "enforce" && ctx.Some? && AnyClaim(ctx.value) && !Verify(mac, ctx.value, secret, now)
    then Some(Stripped(ctx.value)) else ctx
  }

  datatype Options = Options(mode: string, secret: string)

  /** Explicit setting, then environment, then warn. */
  function ResolveMode(option: string, env: string): string {
    if option != "" then option else if env != "" then env else "warn"
  }

  function ResolveSecret(option: string, env: string): string {
    if option != "" then option else env
  }

  /** In enforce mode a handler that sees any user claim sees claims signed by the holder
      of the secret over exactly the values it reads, and not expired. */
  lemma EnforceProtects(mac: Mac, secret: string, now: int, ctx: Context)
    ensures var out := Passed(mac, "enforce", secret, now, ctx);
            (out.Some? && AnyClaim(out.value)) ==>
              && out == ctx && secret != ""
              && var md := ctx.value;
                 var exp := ParseInt(First(md, EXP));
                 exp.Some? && now <= exp.value && First(md, SIG) == SignClaims(mac, secret, ReadClaims(md), exp.value)
  {
  }

  /** What the gateway signed reaches the handler unchanged in every mode, until it expires:
      the tenant and the administrator it named are the ones reported. */
  lemma SignedPasses(mac: Mac, mode: string, secret: string, exp: int, now: int, md: MD)
    requires secret != "" && INT64_MIN <= exp <= INT64_MAX && now <= exp
    requires First(md, EXP) == FormatInt(exp)
    requires First(md, SIG) == SignClaims(mac, secret, ReadClaims(md), exp)
    requires mac(secret, Canonical(ReadClaims(md), exp)) != []
    ensures var out := Passed(mac, mode, secret, now, Some(md));
            out == Some(md) && TenantID(out) == TenantID(Some(md)) && IsPlatformAdmin(out) == IsPlatformAdmin(Some(md))
  {
    SignThenVerify(mac, md, secret, exp, now);
  }

  /** Requests without user claims, and all requests in any mode but "enforce", pass
      unchanged; in "enforce" claims are visible if and only if they verify, and are then
      the ones that were sent. */
  lemma VisibleIffVerified(mac: Mac, mode: string, secret: string, now: int, ctx: Context)
    ensures ctx.None? || !AnyClaim(ctx.value) || mode != "enforce" ==> Passed(mac, mode, secret, now, ctx) == ctx
    ensures ctx.Some? && AnyClaim(ctx.value) ==>
              var out := Passed(mac, "enforce", secret, now, ctx);
              && out.Some?
              && (AnyClaim(out.value) <==> Verify(mac, ctx.value, secret, now))
              && (AnyClaim(out.value) ==> out == ctx)
  {
    if ctx.Some? { StrippedHasNone(ctx.value); }
  }

  lemma StrippedHasNone(md: MD)
    ensures !AnyClaim(Stripped(md))
  {
  }

  /** So neither an administrator nor a tenant can be forged. */
  lemma EnforceAdminAndTenant(mac: Mac, secret: string, now: int, ctx: Context)
    ensures var out := Passed(mac, "enforce", secret, now, ctx);
            IsPlatformAdmin(out) || TenantID(out) != 0 ==> out == ctx && ctx.Some? && Verify(mac, ctx.value, secret, now)
  {
    var out := Passed(mac, "enforce", secret, now, ctx);
    if out.Some? && !AnyClaim(out.value) {
      assert First(out.value, SIGNED_KEYS[0]) == "" && First(out.value, SIGNED_KEYS[3]) == "";
      NoRolesInEmpty();
    } else if out.None? {
      NoRolesInEmpty();
    }
    if ctx.Some? { StrippedHasNone(ctx.value); }
  }

  lemma NoRolesInEmpty()
    ensures RolesOf("") == []
  {
  }

  lemma AdminRoleIsOneRole(role: string)
    requires role == PLATFORM_ADMIN || role == SUPER_ADMIN
    ensures role != "" && ',' !in role
  {
  }

  lemma SoleAdminRole(ctx: Context, role: string)
    requires (role == PLATFORM_ADMIN || role == SUPER_ADMIN) && Value(ctx, ROLES) == role
    ensures IsPlatformAdmin(ctx)
  {
    AdminRoleIsOneRole(role);
    LastRole(role);
    assert role in RolesOf(role);
  }

  /** Every other mode value, misspellings of "enforce" included, lets an unsigned
      administrator through. */
  lemma OnlyEnforceProtects(mac: Mac, mode: string, secret: string, now: int, md: MD)
    requires mode != "enforce" && First(md, SIG) == ""
    requires First(md, ROLES) == PLATFORM_ADMIN || First(md, ROLES) == SUPER_ADMIN
    ensures IsPlatformAdmin(Passed(mac, mode, secret, now, Some(md))) && !Verify(mac, md, secret, now)
  {
    SoleAdminRole(Some(md), First(md, ROLES));
  }
}
