/** Choosing the rule that serves a request (FindMethodByHTTP and calculateSpecificity in
    gateway/transcoder/descriptor_parser.go, the rule scan of Handle in
    gateway/transcoder/transcoder.go). */
module Selection {
  import opened Seqs
  import opened Routes

  datatype HTTPRule = HTTPRule(verb: string, pattern: string, body: string, responseBody: string)
  datatype MethodInfo = MethodInfo(serviceName: string, methodName: string, fullName: string, rules: seq<HTTPRule>)

  function Lower(c: char): char {
    if 'A' <= c <= 'Z' then c + 32 as char else c
  }

  /** strings.EqualFold on ASCII. */
  predicate EqualFold(a: string, b: string) {
    |a| == |b| && forall i :: 0 <= i < |a| ==> Lower(a[i]) == Lower(b[i])
  }

  function Upper(s: string): (u: string)
    ensures |u| == |s| && UpperCase(u)
  {
    seq(|s|, i requires 0 <= i < |s| => if 'a' <= s[i] <= 'z' then s[i] - 32 as char else s[i])
  }

  predicate UpperCase(s: string) {
    forall i :: 0 <= i < |s| ==> !('a' <= s[i] <= 'z')
  }

  /** Folding identifies strings with the same upper-case form and no others, so it is an
      equivalence; strings without lower-case letters fold together only if equal. */
  lemma FoldMeans(a: string, b: string)
    ensures EqualFold(a, b) <==> Upper(a) == Upper(b)
    ensures EqualFold(a, Upper(a))
    ensures UpperCase(a) && UpperCase(b) ==> (EqualFold(a, b) <==> a == b)
  {
    if EqualFold(a, b) {
      forall i | 0 <= i < |a| ensures Upper(a)[i] == Upper(b)[i] { }
    } else if |a| == |b| {
      var i :| 0 <= i < |a| && Lower(a[i]) != Lower(b[i]);
      assert Upper(a)[i] != Upper(b)[i];
    }
    assert UpperCase(a) ==> Upper(a) == a;
    assert UpperCase(b) ==> Upper(b) == b;
  }

  predicate Applies(rule: HTTPRule, verb: string, path: string) {
    EqualFold(rule.verb, verb) && Matched(rule.pattern, path).Some?
  }

  // ---------------------------------------------------------- specificity

  function PartScore(part: string): int {
    if IsParam(part) then (if HasStars(part) then -10 else 0) else 10
  }

  function PartsScore(parts: seq<string>): int {
    if parts == [] then 0 else PartsScore(parts[..|parts| - 1]) + PartScore(parts[|parts| - 1])
  }

  function Specificity(pattern: string): int {
    PartsScore(Parts(pattern)) + |Parts(pattern)|
  }

  method CalculateSpecificity(pattern: string) returns (specificity: int)
    ensures specificity == Specificity(pattern)
  {
    var parts := Parts(pattern);
    specificity := 0;
    for i := 0 to |parts|
      invariant specificity == PartsScore(parts[..i])
    {
      assert parts[..i + 1][..i] == parts[..i];
      if IsParam(parts[i]) {
        if HasStars(parts[i]) {
          specificity := specificity - 10;
        }
      } else {
        specificity := specificity + 10;
      }
    }
    assert parts[..|parts|] == parts;
    specificity := specificity + |parts|;
  }

  function ParamCount(parts: seq<string>): nat {
    if parts == [] then 0
    else ParamCount(parts[..|parts| - 1]) + if IsParam(parts[|parts| - 1]) then 1 else 0
  }

  function StarredCount(parts: seq<string>): nat {
    if parts == [] then 0
    else StarredCount(parts[..|parts| - 1]) + if IsParam(parts[|parts| - 1]) && HasStars(parts[|parts| - 1]) then 1 else 0
  }

  /** Every parameter costs ten, and a starred one twenty. */
  lemma {:induction false} ScoreByParams(parts: seq<string>)
    ensures PartsScore(parts) == 10 * (|parts| - ParamCount(parts) - StarredCount(parts))
    ensures (forall i :: 0 <= i < |parts| ==> !HasStars(parts[i])) ==> StarredCount(parts) == 0
    ensures ParamCount(parts) <= |parts|
  {
    if parts != [] {
      ScoreByParams(parts[..|parts| - 1]);
    }
  }

  lemma {:induction false} StarFreeSplit(s: string)
    requires !HasStars(s)
    ensures forall i :: 0 <= i < |Split(s, '/')| ==> !HasStars(Split(s, '/')[i])
    ensures s != [] && Split(s, '/')[0] != [] ==> Split(s, '/')[0][0] == s[0]
  {
    if s != [] {
      var rest := s[1..];
      assert forall i :: 0 <= i < |rest| ==> rest[i] == s[i + 1];
      StarFreeSplit(rest);
      var head := Split(rest, '/')[0];
      if s[0] != '/' && head != [] {
        assert rest != [] && head[0] == s[1];
        var first := [s[0]] + head;
        assert forall i :: 1 <= i < |first| ==> first[i] == head[i - 1];
        assert !HasStars(first);
      }
    }
  }

  lemma {:induction false} StarFreeTrimLeft(s: string)
    requires !HasStars(s)
    ensures !HasStars(TrimLeft(s))
  {
    if s != [] && s[0] == '/' {
      assert forall i :: 0 <= i < |s[1..]| ==> s[1..][i] == s[i + 1];
      StarFreeTrimLeft(s[1..]);
    }
  }

  lemma {:induction false} StarFreeTrimRight(s: string)
    requires !HasStars(s)
    ensures !HasStars(TrimRight(s))
  {
    if s != [] && s[|s| - 1] == '/' {
      StarFreeTrimRight(s[..|s| - 1]);
    }
  }

  lemma StarFreeParts(pattern: string)
    requires !HasStars(pattern)
    ensures forall i :: 0 <= i < |Parts(pattern)| ==> !HasStars(Parts(pattern)[i])
  {
    StarFreeTrimLeft(pattern);
    StarFreeTrimRight(TrimLeft(pattern));
    StarFreeSplit(Trim(pattern));
  }

  /** Among matches of one path by star-free patterns, more specific means fewer
      parameters; a literal pattern is the most specific of them. */
  lemma FewestParametersWin(p: string, q: string, path: string)
    requires Matched(p, path).Some? && Matched(q, path).Some?
    requires !HasStars(p) && !HasStars(q)
    ensures Specificity(p) >= Specificity(q) <==> ParamCount(Parts(p)) <= ParamCount(Parts(q))
  {
    StarFreeParts(p);
    StarFreeParts(q);
    ScoreByParams(Parts(p));
    ScoreByParams(Parts(q));
  }

  lemma {:induction false} MatchedLength(ps: seq<string>, qs: seq<string>, params: Params)
    requires MatchParts(ps, qs, params).Some?
    requires forall i :: 0 <= i < |ps| - 1 ==> !IsCatchAll(ps[i])
    ensures |ps| <= |qs|
  {
    if ps != [] && IsCatchAll(ps[0]) {
      assert |ps| == 1;
    } else if ps != [] {
      var rest := ps[1..];
      assert forall i :: 0 <= i < |rest| ==> rest[i] == ps[i + 1];
      MatchedLength(rest, qs[1..], if IsParam(ps[0]) then params[Name(ps[0]) := qs[0]] else params);
    }
  }

  /** When a fully literal match beats another match of the path, exactly. Every segment
      of q counts, compared with the path or not, so q must not be long enough to make up
      for its parameters; with a catch-all as the last segment at most, it never is. */
  lemma LiteralWins(p: string, q: string, path: string)
    requires Matched(p, path).Some? && Matched(q, path).Some?
    requires !HasStars(p) && ParamCount(Parts(p)) == 0
    ensures Specificity(p) > Specificity(q) <==>
              11 * |Parts(q)| - 10 * ParamCount(Parts(q)) - 10 * StarredCount(Parts(q)) < 11 * |Parts(path)|
    ensures ParamCount(Parts(q)) > 0 && (forall i :: 0 <= i < |Parts(q)| - 1 ==> !IsCatchAll(Parts(q)[i])) ==>
              Specificity(p) > Specificity(q)
  {
    StarFreeParts(p);
    ScoreByParams(Parts(p));
    ScoreByParams(Parts(q));
    if forall i :: 0 <= i < |Parts(q)| - 1 ==> !IsCatchAll(Parts(q)[i]) {
      MatchedLength(Parts(q), Parts(path), map[]);
    }
  }

  lemma MisplacedScores()
    ensures PartsScore(["{**}", "b", "c"]) == 10 && PartsScore(["x"]) == 10
  {
    var ps := ["{**}", "b", "c"];
    assert ps[..2] == ["{**}", "b"] && ps[..2][..1] == ["{**}"] && ["{**}"][..0] == [];
    assert ["x"][..0] == [];
    assert "{**}"[1] == '*' && "{**}"[2] == '*';
  }

  /** A catch-all that is not last: the segments after it are never compared with the path
      but still count, so this pattern outscores the literal one. */
  lemma MisplacedCatchAllWins()
    ensures Matched("/x", "/x").Some? && Matched("/{**}/b/c", "/x").Some?
    ensures Specificity("/{**}/b/c") > Specificity("/x")
  {
    var p, ps := "/{**}/b/c", ["{**}", "b", "c"];
    assert Parts("/x") == ["x"] by { PartsOfJoin(["x"]); }
    assert Parts(p) == ps by {
      assert ps[1..] == ["b", "c"] && ["b", "c"][1..] == ["c"];
      assert p == "/" + Join(ps, '/');
      PartsOfJoin(ps);
    }
    assert HasStars(p) by { assert p[2] == '*' && p[3] == '*'; }
    MisplacedMatches();
    MisplacedScores();
  }

  lemma MisplacedMatches()
    ensures MatchParts(["{**}", "b", "c"], ["x"], map[]).Some? && MatchParts(["x"], ["x"], map[]).Some?
  {
    assert Name("{**}") == "**";
    assert ["x"][1..] == [];
  }

  // ------------------------------------------------------------- selection

  datatype Match = Match(m: MethodInfo, params: Params, specificity: int)

  /** The rules of a method that apply, in their order. */
  function Applicable(m: MethodInfo, verb: string, path: string): seq<HTTPRule> {
    Filter(m.rules, r => Applies(r, verb, path))
  }

  function MatchOf(m: MethodInfo, r: HTTPRule, path: string): Match {
    var params := Matched(r.pattern, path);
    Match(m, if params.Some? then params.value else map[], Specificity(r.pattern))
  }

  function MatchesOf(m: MethodInfo, rules: seq<HTTPRule>, path: string): (matches: seq<Match>)
    ensures |matches| == |rules|
  {
    seq(|rules|, i requires 0 <= i < |rules| => MatchOf(m, rules[i], path))
  }

  /** Every match of the request, in the order of the methods and of their rules. */
  function AllMatches(methods: seq<MethodInfo>, verb: string, path: string): seq<Match> {
    if methods == [] then []
    else
      var m := methods[|methods| - 1];
      AllMatches(methods[..|methods| - 1], verb, path) + MatchesOf(m, Applicable(m, verb, path), path)
  }

  lemma MatchesAppend(m: MethodInfo, rules: seq<HTTPRule>, r: HTTPRule, path: string)
    ensures MatchesOf(m, rules + [r], path) == MatchesOf(m, rules, path) + [MatchOf(m, r, path)]
  {
  }

  /** The inner loop: one method's matching rules, appended in order. */
  method CollectMethod(m: MethodInfo, verb: string, path: string, before: seq<Match>) returns (matches: seq<Match>)
    ensures matches == before + MatchesOf(m, Applicable(m, verb, path), path)
  {
    matches := before;
    ghost var keep := r => Applies(r, verb, path);
    for i := 0 to |m.rules|
      invariant matches == before + MatchesOf(m, Filter(m.rules[..i], keep), path)
    {
      var rule := m.rules[i];
      ghost var found := Filter(m.rules[..i], keep);
      if EqualFold(rule.verb, verb) {
        var params := MatchPath(rule.pattern, path);
        if params.Some? {
          var specificity := CalculateSpecificity(rule.pattern);
          matches := matches + [Match(m, params.value, specificity)];
          MatchesAppend(m, found, rule, path);
        }
      }
      assert Filter(m.rules[..i + 1], keep) == found + if keep(rule) then [rule] else [] by {
        assert m.rules[..i + 1] == m.rules[..i] + [rule];
        FilterAppend(m.rules[..i], [rule], keep);
      }
      assert keep(rule) || found + [] == found;
    }
    assert m.rules[..|m.rules|] == m.rules;
  }

  /** The outer loops. */
  method CollectAll(methods: seq<MethodInfo>, verb: string, path: string) returns (matches: seq<Match>)
    ensures matches == AllMatches(methods, verb, path)
  {
    matches := [];
    for i := 0 to |methods|
      invariant matches == AllMatches(methods[..i], verb, path)
    {
      matches := CollectMethod(methods[i], verb, path, matches);
      assert methods[..i + 1][..i] == methods[..i];
    }
    assert methods[..|methods|] == methods;
  }

  /** The x-th match is the first of those with the greatest specificity. */
  ghost predicate FirstBest(matches: seq<Match>, x: int) {
    && 0 <= x < |matches|
    && (forall y :: 0 <= y < |matches| ==> matches[y].specificity <= matches[x].specificity)
    && forall y :: 0 <= y < x ==> matches[y].specificity < matches[x].specificity
  }

  /** The running best. */
  method PickBest(matches: seq<Match>) returns (best: Match)
    requires matches != []
    ensures exists x :: FirstBest(matches, x) && best == matches[x]
  {
    best := matches[0];
    ghost var x := 0;
    for i := 1 to |matches|
      invariant x < i && best == matches[x]
      invariant forall y :: 0 <= y < i ==> matches[y].specificity <= best.specificity
      invariant forall y :: 0 <= y < x ==> matches[y].specificity < best.specificity
    {
      if matches[i].specificity > best.specificity {
        best := matches[i];
        x := i;
      }
    }
    assert FirstBest(matches, x);
  }

  /** One of the rules that apply to the request. */
  ghost predicate Candidate(methods: seq<MethodInfo>, verb: string, path: string, m: MethodInfo, r: HTTPRule) {
    m in methods && r in m.rules && Applies(r, verb, path)
  }

  /** The match came from rule r of method m: none of the rules that apply is more
      specific, and none of m's own before r is as specific. */
  ghost predicate Chosen(best: Match, methods: seq<MethodInfo>, verb: string, path: string, r: HTTPRule) {
    && Candidate(methods, verb, path, best.m, r)
    && best.params == Matched(r.pattern, path).value && best.specificity == Specificity(r.pattern)
    && (forall m, q :: Candidate(methods, verb, path, m, q) ==> Specificity(q.pattern) <= best.specificity)
    && exists k :: FirstGreatest(Applicable(best.m, verb, path), k) && Applicable(best.m, verb, path)[k] == r
  }

  ghost predicate FirstGreatest(rules: seq<HTTPRule>, k: int) {
    && 0 <= k < |rules|
    && (forall y :: 0 <= y < |rules| ==> Specificity(rules[y].pattern) <= Specificity(rules[k].pattern))
    && forall y :: 0 <= y < k ==> Specificity(rules[y].pattern) < Specificity(rules[k].pattern)
  }

  /** Where a match sits: in the block of the method it came from. */
  lemma {:induction false} BlockOf(methods: seq<MethodInfo>, verb: string, path: string, x: nat)
    returns (m: MethodInfo, from: nat)
    requires x < |AllMatches(methods, verb, path)|
    ensures m in methods
    ensures var all, block := AllMatches(methods, verb, path), MatchesOf(m, Applicable(m, verb, path), path);
            from <= x < from + |block| <= |all| && all[from..from + |block|] == block
  {
    var n := |methods| - 1;
    var front := AllMatches(methods[..n], verb, path);
    if x < |front| {
      m, from := BlockOf(methods[..n], verb, path, x);
      var all, to := AllMatches(methods, verb, path), from + |Applicable(m, verb, path)|;
      assert all[..|front|] == front;
      assert all[from..to] == front[from..to];
    } else {
      m, from := methods[n], |front|;
    }
  }

  /** Every rule that applies has its match. */
  lemma {:induction false} CandidateMatches(methods: seq<MethodInfo>, verb: string, path: string, m: MethodInfo, r: HTTPRule)
    requires Candidate(methods, verb, path, m, r)
    ensures MatchOf(m, r, path) in AllMatches(methods, verb, path)
  {
    var n := |methods| - 1;
    if m in methods[..n] {
      CandidateMatches(methods[..n], verb, path, m, r);
    } else {
      var rules := Applicable(m, verb, path);
      FilterMembers(m.rules, q => Applies(q, verb, path));
      var k :| 0 <= k < |rules| && rules[k] == r;
      assert MatchesOf(m, rules, path)[k] == MatchOf(m, r, path);
    }
  }

  lemma FirstBestIsChosen(methods: seq<MethodInfo>, verb: string, path: string, x: nat) returns (r: HTTPRule)
    requires FirstBest(AllMatches(methods, verb, path), x)
    ensures Chosen(AllMatches(methods, verb, path)[x], methods, verb, path, r)
  {
    var all := AllMatches(methods, verb, path);
    var m, from := BlockOf(methods, verb, path, x);
    var rules := Applicable(m, verb, path);
    BlockBest(all, m, rules, path, from, x);
    r := rules[x - from];
    assert r in m.rules && Applies(r, verb, path) by {
      FilterMembers(m.rules, q => Applies(q, verb, path));
      assert r in rules;
    }
    forall m', q | Candidate(methods, verb, path, m', q) ensures Specificity(q.pattern) <= all[x].specificity {
      CandidateMatches(methods, verb, path, m', q);
    }
  }

  lemma BlockBest(all: seq<Match>, m: MethodInfo, rules: seq<HTTPRule>, path: string, from: nat, x: nat)
    requires FirstBest(all, x) && from <= x < from + |rules| <= |all|
    requires all[from..from + |rules|] == MatchesOf(m, rules, path)
    ensures FirstGreatest(rules, x - from) && all[x] == MatchOf(m, rules[x - from], path)
  {
    forall y | 0 <= y < |rules| ensures all[from + y] == MatchOf(m, rules[y], path) {
      assert all[from..from + |rules|][y] == all[from + y];
    }
  }

  /** Request and rules spell their verbs in upper case, as net/http and the annotations do. */
  ghost predicate UpperCaseVerbs(methods: seq<MethodInfo>, verb: string) {
    UpperCase(verb) && forall m, r :: m in methods && r in m.rules ==> UpperCase(r.verb)
  }

  /** Some rule has the very verb of the request and a pattern that matches. */
  ghost predicate Served(methods: seq<MethodInfo>, verb: string, path: string) {
    exists m, r :: m in methods && r in m.rules && r.verb == verb && Matched(r.pattern, path).Some?
  }

  lemma UpperCaseCandidates(methods: seq<MethodInfo>, verb: string, path: string)
    requires UpperCaseVerbs(methods, verb)
    ensures forall m, r :: Candidate(methods, verb, path, m, r) <==>
              m in methods && r in m.rules && r.verb == verb && Matched(r.pattern, path).Some?
    ensures (exists m, r :: Candidate(methods, verb, path, m, r)) <==> Served(methods, verb, path)
  {
    forall m, r | m in methods && r in m.rules ensures EqualFold(r.verb, verb) <==> r.verb == verb {
      FoldMeans(r.verb, verb);
    }
    if Served(methods, verb, path) {
      var m, r :| m in methods && r in m.rules && r.verb == verb && Matched(r.pattern, path).Some?;
      assert Candidate(methods, verb, path, m, r);
    }
  }

  /** FindMethodByHTTP over any enumeration of the descriptor's methods: whatever order the
      service and method maps are iterated in, it succeeds iff some rule applies, and
      then returns the first match of greatest specificity in that order. */
  method FindMethodByHTTP(methods: seq<MethodInfo>, verb: string, path: string) returns (best: Option<Match>)
    ensures best.Some? <==> exists m, r :: Candidate(methods, verb, path, m, r)
    ensures best.Some? ==> exists x :: FirstBest(AllMatches(methods, verb, path), x) && best.value == AllMatches(methods, verb, path)[x]
    ensures best.Some? ==> exists r :: Chosen(best.value, methods, verb, path, r)
    ensures UpperCaseVerbs(methods, verb) ==> (best.Some? <==> Served(methods, verb, path))
    ensures UpperCaseVerbs(methods, verb) && best.Some? ==> exists r :: Chosen(best.value, methods, verb, path, r) && r.verb == verb
  {
    if UpperCaseVerbs(methods, verb) {
      UpperCaseCandidates(methods, verb, path);
    }
    var matches := CollectAll(methods, verb, path);
    if |matches| == 0 {
      forall m, r | Candidate(methods, verb, path, m, r) ensures false {
        CandidateMatches(methods, verb, path, m, r);
      }
      return None;
    }
    var top := PickBest(matches);
    ghost var x :| FirstBest(matches, x) && top == matches[x];
    ghost var r := FirstBestIsChosen(methods, verb, path, x);
    return Some(top);
  }

  // -------------------------------------------------------- Handle's re-scan

  /** Index of the first applying rule, or |rules|. */
  function FirstApplying(rules: seq<HTTPRule>, verb: string, path: string): (i: nat)
    ensures i <= |rules|
    ensures i < |rules| ==> Applies(rules[i], verb, path)
    ensures forall k :: 0 <= k < i ==> !Applies(rules[k], verb, path)
  {
    if rules == [] || Applies(rules[0], verb, path) then 0
    else
      assert forall k :: 1 <= k < |rules| ==> rules[k] == rules[1..][k - 1];
      1 + FirstApplying(rules[1..], verb, path)
  }

  method Rescan(m: MethodInfo, verb: string, path: string) returns (rule: Option<HTTPRule>)
    ensures var i := FirstApplying(m.rules, verb, path); rule == if i < |m.rules| then Some(m.rules[i]) else None
  {
    for i := 0 to |m.rules|
      invariant forall k :: 0 <= k < i ==> !Applies(m.rules[k], verb, path)
    {
      if EqualFold(m.rules[i].verb, verb) {
        var params := MatchPath(m.rules[i].pattern, path);
        if params.Some? {
          assert FirstApplying(m.rules, verb, path) == i;
          return Some(m.rules[i]);
        }
      }
    }
    return None;
  }

  lemma {:induction false} FirstIsApplicable(rules: seq<HTTPRule>, verb: string, path: string)
    ensures var i, app := FirstApplying(rules, verb, path), Filter(rules, r => Applies(r, verb, path));
            if i < |rules| then app != [] && app[0] == rules[i] else app == []
  {
    if rules != [] {
      FirstIsApplicable(rules[1..], verb, path);
    }
  }

  /** The first rule of the method that applies is as specific as any that does. */
  ghost predicate FirstIsGreatest(m: MethodInfo, verb: string, path: string) {
    var i := FirstApplying(m.rules, verb, path);
    forall r :: r in m.rules && Applies(r, verb, path) ==>
      i < |m.rules| && Specificity(r.pattern) <= Specificity(m.rules[i].pattern)
  }

  /** With two applying rules they can differ: here the parameters come from the literal
      rule, while the scan settles on the parameterised one and its body setting. */
  lemma RescanMayDisagree()
    ensures var general, literal := HTTPRule("GET", "/{x}", "*", ""), HTTPRule("GET", "/a", "", "");
            && FirstApplying([general, literal], "GET", "/a") == 0
            && Applies(literal, "GET", "/a") && Specificity(literal.pattern) > Specificity(general.pattern)
  {
    GeneralRoute();
    LiteralRoute();
  }

  lemma GeneralRoute()
    ensures Matched("/{x}", "/a").Some? && Specificity("/{x}") == 1
  {
    assert Parts("/{x}") == ["{x}"] by { PartsOfJoin(["{x}"]); }
    assert Parts("/a") == ["a"] by { PartsOfJoin(["a"]); }
    assert Name("{x}") == "x";
    assert MatchParts(["{x}"], ["a"], map[]).Some? by { assert ["{x}"][1..] == []; }
    assert PartsScore(["{x}"]) == 0 by { assert ["{x}"][..0] == []; }
  }

  lemma LiteralRoute()
    ensures Matched("/a", "/a").Some? && Specificity("/a") == 11
  {
    assert Parts("/a") == ["a"] by { PartsOfJoin(["a"]); }
    assert ["a"][1..] == [] && ["a"][..0] == [];
  }

  lemma FirstOrLater(rules: seq<HTTPRule>, k: nat)
    requires FirstGreatest(rules, k)
    ensures k == 0 <==> forall r :: r in rules ==> Specificity(r.pattern) <= Specificity(rules[0].pattern)
    ensures k == 0 <==> rules[0] == rules[k]
    ensures k == 0 <==> Specificity(rules[0].pattern) == Specificity(rules[k].pattern)
  {
    assert rules[k] in rules;
  }

  lemma FirstIsGreatestMeans(m: MethodInfo, verb: string, path: string)
    requires FirstApplying(m.rules, verb, path) < |m.rules|
    ensures var app := Applicable(m, verb, path);
            && app != [] && app[0] == m.rules[FirstApplying(m.rules, verb, path)]
            && (FirstIsGreatest(m, verb, path) <==> forall r :: r in app ==> Specificity(r.pattern) <= Specificity(app[0].pattern))
  {
    FirstIsApplicable(m.rules, verb, path);
    FilterMembers(m.rules, q => Applies(q, verb, path));
  }

  /** When the two scans settle on one rule. */
  lemma ScansAgree(best: Match, methods: seq<MethodInfo>, verb: string, path: string, r: HTTPRule, rule: HTTPRule)
    requires Chosen(best, methods, verb, path, r)
    requires var i := FirstApplying(best.m.rules, verb, path); i < |best.m.rules| && rule == best.m.rules[i]
    ensures rule == r <==> FirstIsGreatest(best.m, verb, path)
    ensures best.specificity == Specificity(rule.pattern) <==> FirstIsGreatest(best.m, verb, path)
  {
    var rules := Applicable(best.m, verb, path);
    assert best.specificity == Specificity(r.pattern);
    var k :| FirstGreatest(rules, k) && rules[k] == r;
    FirstIsGreatestMeans(best.m, verb, path);
    FirstOrLater(rules, k);
  }

  /** The lookup half of Handle. The second scan never comes back empty, and it settles on
      the rule the parameters came from if and only if the first applying rule of the
      chosen method is as specific as any other of them. */
  method Lookup(methods: seq<MethodInfo>, verb: string, path: string) returns (best: Option<Match>, rule: Option<HTTPRule>)
    ensures best.Some? <==> rule.Some?
    ensures best.Some? <==> exists m, r :: Candidate(methods, verb, path, m, r)
    ensures best.Some? ==> rule.value in best.value.m.rules && Applies(rule.value, verb, path)
    ensures best.Some? ==>
              exists r :: Chosen(best.value, methods, verb, path, r) && (rule.value == r <==> FirstIsGreatest(best.value.m, verb, path))
    ensures best.Some? ==>
              (best.value.specificity == Specificity(rule.value.pattern) <==> FirstIsGreatest(best.value.m, verb, path))
    ensures UpperCaseVerbs(methods, verb) ==> (best.Some? <==> Served(methods, verb, path))
    ensures UpperCaseVerbs(methods, verb) && best.Some? ==> rule.value.verb == verb
  {
    best := FindMethodByHTTP(methods, verb, path);
    if best.None? {
      return None, None;
    }
    rule := Rescan(best.value.m, verb, path);
    FoldMeans(rule.value.verb, verb);
    ghost var r :| Chosen(best.value, methods, verb, path, r);
    ghost var k :| 0 <= k < |best.value.m.rules| && best.value.m.rules[k] == r;
    ScansAgree(best.value, methods, verb, path, r, rule.value);
  }

  // --------------------------------------------------------- listed routes

  datatype RouteInfo = RouteInfo(moduleID: string, serviceName: string, methodName: string, verb: string, pattern: string,
                                 fullMethod: string)

  function RouteOf(prefix: string, id: string, m: MethodInfo, r: HTTPRule): RouteInfo {
    RouteInfo(id, m.serviceName, m.methodName, r.verb, prefix + id + r.pattern, m.fullName)
  }

  function RoutesOfMethod(prefix: string, id: string, m: MethodInfo): (routes: seq<RouteInfo>)
    ensures |routes| == |m.rules|
  {
    seq(|m.rules|, i requires 0 <= i < |m.rules| => RouteOf(prefix, id, m, m.rules[i]))
  }

  function RoutesOf(prefix: string, id: string, methods: seq<MethodInfo>): seq<RouteInfo> {
    if methods == [] then []
    else RoutesOf(prefix, id, methods[..|methods| - 1]) + RoutesOfMethod(prefix, id, methods[|methods| - 1])
  }

  /** modules: the connected modules with their methods, in the order they are listed. */
  method GetModuleRoutes(prefix: string, id: string, modules: map<string, seq<MethodInfo>>) returns (out: Option<seq<RouteInfo>>)
    ensures out == if id in modules then Some(RoutesOf(prefix, id, modules[id])) else None
  {
    if id !in modules {
      return None;
    }
    var methods, routes: seq<RouteInfo> := modules[id], [];
    for i := 0 to |methods|
      invariant routes == RoutesOf(prefix, id, methods[..i])
    {
      var m := methods[i];
      ghost var before := routes;
      for k := 0 to |m.rules|
        invariant routes == before + RoutesOfMethod(prefix, id, m)[..k]
      {
        routes := routes + [RouteOf(prefix, id, m, m.rules[k])];
      }
      assert RoutesOfMethod(prefix, id, m)[..|m.rules|] == RoutesOfMethod(prefix, id, m);
      assert methods[..i + 1][..i] == methods[..i];
    }
    assert methods[..|methods|] == methods;
    return Some(routes);
  }

  lemma {:induction false} RouteComesFromRule(prefix: string, id: string, methods: seq<MethodInfo>, x: RouteInfo) returns (m: MethodInfo, r: HTTPRule)
    requires x in RoutesOf(prefix, id, methods)
    ensures m in methods && r in m.rules && x == RouteOf(prefix, id, m, r)
  {
    var n := |methods| - 1;
    if x in RoutesOf(prefix, id, methods[..n]) {
      m, r := RouteComesFromRule(prefix, id, methods[..n], x);
    } else {
      m := methods[n];
      var k :| 0 <= k < |m.rules| && RoutesOfMethod(prefix, id, m)[k] == x;
      r := m.rules[k];
    }
  }

  /** What is listed, method by method: one route per rule, in order, and nothing else. */
  lemma {:induction false} RoutesListed(prefix: string, id: string, before: seq<MethodInfo>, m: MethodInfo, after: seq<MethodInfo>)
    ensures var routes, from := RoutesOf(prefix, id, before + [m] + after), |RoutesOf(prefix, id, before)|;
            && |routes| == from + |m.rules| + |RoutesOf(prefix, id, after)|
            && forall i :: 0 <= i < |m.rules| ==>
                 routes[from + i] ==
                   RouteInfo(id, m.serviceName, m.methodName, m.rules[i].verb, prefix + id + m.rules[i].pattern, m.fullName)
    ensures RoutesOf(prefix, id, []) == []
    decreases |after|
  {
    var all := before + [m] + after;
    if after == [] {
      assert all[..|all| - 1] == before;
    } else {
      var n := |after| - 1;
      RoutesListed(prefix, id, before, m, after[..n]);
      assert all[..|all| - 1] == before + [m] + after[..n] && all[|all| - 1] == after[n];
      assert RoutesOf(prefix, id, all) == RoutesOf(prefix, id, before + [m] + after[..n]) + RoutesOfMethod(prefix, id, after[n]);
    }
  }

  /** r makes a route that can be filled with these values. */
  ghost predicate Fillable(r: HTTPRule, values: Params) {
    && r.pattern != [] && r.pattern[0] == '/' && Fills(values, Split(r.pattern, '/'))
    && forall i :: 0 <= i < |Parts(r.pattern)| ==> !IsCatchAll(Parts(r.pattern)[i])
  }

  /** Every listed route leads somewhere: it stands for a rule such that any filling of it
      is split back to the module and found there by FindMethodByHTTP's criterion. */
  lemma ListedRouteIsFound(prefix: string, id: string, methods: seq<MethodInfo>, x: RouteInfo)
    requires id != [] && '/' !in id && x in RoutesOf(prefix, id, methods)
    ensures exists m, r :: m in methods && r in m.rules && x.pattern == prefix + id + r.pattern && x.verb == r.verb
              && forall values :: Fillable(r, values) ==>
                   var (got, rest) := ExtractModule(prefix, prefix + id + Fill(r.pattern, values));
                   got == id && Applies(r, x.verb, rest)
  {
    var m, r := RouteComesFromRule(prefix, id, methods, x);
    forall values | Fillable(r, values)
      ensures var (got, rest) := ExtractModule(prefix, prefix + id + Fill(r.pattern, values));
              got == id && Applies(r, x.verb, rest)
    {
      ListedRouteIsServed(prefix, id, r.pattern, values);
    }
  }
}
