/** Route matching (gateway/transcoder/descriptor_parser.go, gateway/dynamic_router.go):
    splitting a request path into module and rest, matching the rest against patterns,
    and picking the most specific rule. */
module Routes {
  import opened Seqs

  type Params = map<string, string>

  // ------------------------------------------------------------- segments

  function TrimLeft(s: string): string {
    if s != [] && s[0] == '/' then TrimLeft(s[1..]) else s
  }

  function TrimRight(s: string): string {
    if s != [] && s[|s| - 1] == '/' then TrimRight(s[..|s| - 1]) else s
  }

  /** strings.Trim(s, "/"). */
  function Trim(s: string): string {
    TrimRight(TrimLeft(s))
  }

  function Parts(s: string): (parts: seq<string>)
    ensures |parts| >= 1
    ensures forall i :: 0 <= i < |parts| ==> '/' !in parts[i]
  {
    Split(Trim(s), '/')
  }

  function DropFront(parts: seq<string>): seq<string> {
    if |parts| > 1 && parts[0] == [] then DropFront(parts[1..]) else parts
  }

  function DropBack(parts: seq<string>): seq<string> {
    if |parts| > 1 && parts[|parts| - 1] == [] then DropBack(parts[..|parts| - 1]) else parts
  }

  lemma {:induction false} SplitSlashEnd(s: string)
    ensures Split(s + "/", '/') == Split(s, '/') + [[]]
  {
    if s == [] {
      SplitPiece<char>([], [], '/');
      assert s + "/" == [] + ['/'] + [];
    } else {
      SplitSlashEnd(s[1..]);
      assert (s + "/")[1..] == s[1..] + "/";
    }
  }

  lemma {:induction false} SplitTrimLeft(s: string)
    ensures Split(TrimLeft(s), '/') == DropFront(Split(s, '/'))
  {
    if s != [] && s[0] == '/' {
      SplitTrimLeft(s[1..]);
      assert ([[]] + Split(s[1..], '/'))[1..] == Split(s[1..], '/');
    } else {
      SplitHeadNonEmpty(s);
    }
  }

  lemma SplitHeadNonEmpty(s: string)
    requires s == [] || s[0] != '/'
    ensures |Split(s, '/')| > 1 ==> Split(s, '/')[0] != []
  {
  }

  lemma {:induction false} SplitTrimRight(s: string)
    ensures Split(TrimRight(s), '/') == DropBack(Split(s, '/'))
  {
    if s != [] && s[|s| - 1] == '/' {
      var front := s[..|s| - 1];
      assert s == front + "/";
      SplitSlashEnd(front);
      SplitTrimRight(front);
      assert (Split(front, '/') + [[]])[..|Split(front, '/')|] == Split(front, '/');
    } else {
      SplitLastNonEmpty(s);
    }
  }

  lemma {:induction false} SplitLastNonEmpty(s: string)
    requires s == [] || s[|s| - 1] != '/'
    ensures var parts := Split(s, '/'); |parts| > 1 ==> parts[|parts| - 1] != []
  {
    if s != [] {
      SplitLastNonEmpty(s[1..]);
      if |s| == 1 { assert s[1..] == []; }
    }
  }

  /** Trimming slashes is dropping empty segments at both ends. */
  lemma PartsOf(s: string)
    ensures Parts(s) == DropBack(DropFront(Split(s, '/')))
  {
    SplitTrimLeft(s);
    SplitTrimRight(TrimLeft(s));
  }

  lemma PartsOfJoin(parts: seq<string>)
    requires parts != [] && parts[0] != [] && parts[|parts| - 1] != []
    requires forall i :: 0 <= i < |parts| ==> '/' !in parts[i]
    ensures Parts("/" + Join(parts, '/')) == parts
  {
    var all := [[]] + parts;
    assert all[1..] == parts;
    assert "/" + Join(parts, '/') == Join(all, '/');
    SplitInvertsJoin(all, '/');
    PartsOf("/" + Join(parts, '/'));
  }

  // ------------------------------------------------------------- patterns

  predicate IsParam(part: string) {
    |part| > 0 && part[0] == '{' && part[|part| - 1] == '}'
  }

  /** strings.Index of a character, or |s|. */
  function IndexOf(s: string, c: char): (i: nat)
    ensures i <= |s| && (i < |s| ==> s[i] == c) && c !in s[..i]
  {
    if s == [] || s[0] == c then 0
    else
      assert s[..1 + IndexOf(s[1..], c)] == [s[0]] + s[1..][..IndexOf(s[1..], c)];
      1 + IndexOf(s[1..], c)
  }

  /** The parameter's name: what is inside the braces, up to an '=' that is not first. */
  function Name(part: string): string
    requires IsParam(part)
  {
    var inner := part[1..|part| - 1];
    var i := IndexOf(inner, '=');
    if 0 < i < |inner| then inner[..i] else inner
  }

  predicate HasSuffix(s: string, suffix: string) {
    |suffix| <= |s| && s[|s| - |suffix|..] == suffix
  }

  predicate CatchAll(name: string) {
    name == "**" || HasSuffix(name, "=**")
  }

  function CatchAllKey(name: string): string {
    if HasSuffix(name, "=**") then name[..|name| - 3] else name
  }

  predicate HasStars(s: string) {
    exists i :: 0 <= i < |s| - 1 && s[i] == '*' && s[i + 1] == '*'
  }

  predicate IsCatchAll(part: string) {
    IsParam(part) && CatchAll(Name(part))
  }

  function MatchParts(ps: seq<string>, qs: seq<string>, params: Params): Option<Params> {
    if ps == [] then Some(params)
    else if qs == [] then None
    else if IsParam(ps[0]) then
      var name := Name(ps[0]);
      if CatchAll(name) then Some(params[CatchAllKey(name) := Join(qs, '/')])
      else MatchParts(ps[1..], qs[1..], params[name := qs[0]])
    else if ps[0] != qs[0] then None
    else MatchParts(ps[1..], qs[1..], params)
  }

  /** MatchPath as a function. */
  function Matched(pattern: string, path: string): Option<Params> {
    var ps, qs := Parts(pattern), Parts(path);
    if |ps| != |qs| && !HasStars(pattern) then None else MatchParts(ps, qs, map[])
  }

  method MatchPath(pattern: string, path: string) returns (out: Option<Params>)
    ensures out == Matched(pattern, path)
  {
    var ps, qs := Parts(pattern), Parts(path);
    if |ps| != |qs| {
      if !HasStars(pattern) {
        return None;
      }
    }
    var params: Params := map[];
    for i := 0 to |ps|
      invariant i <= |qs|
      invariant MatchParts(ps[i..], qs[i..], params) == MatchParts(ps, qs, map[])
    {
      if i >= |qs| {
        return None;
      }
      assert ps[i..][1..] == ps[i + 1..] && qs[i..][1..] == qs[i + 1..];
      if IsParam(ps[i]) {
        var name := Name(ps[i]);
        if CatchAll(name) {
          return Some(params[CatchAllKey(name) := Join(qs[i..], '/')]);
        }
        params := params[name := qs[i]];
      } else if ps[i] != qs[i] {
        return None;
      }
    }
    return Some(params);
  }

  // ------------------------------------------------- filling then matching

  /** Values for a pattern's parameters: non-empty and slash-free. */
  ghost predicate Fills(values: Params, parts: seq<string>) {
    forall i :: 0 <= i < |parts| && IsParam(parts[i]) ==>
      var n := Name(parts[i]);
      n in values && values[n] != [] && '/' !in values[n]
  }

  function FillPart(part: string, values: Params): string {
    if IsParam(part) && Name(part) in values then values[Name(part)] else part
  }

  function FillAll(parts: seq<string>, values: Params): (out: seq<string>)
    ensures |out| == |parts|
  {
    seq(|parts|, i requires 0 <= i < |parts| => FillPart(parts[i], values))
  }

  /** The concrete path: every parameter segment of the pattern replaced by its value. */
  function Fill(pattern: string, values: Params): string {
    Join(FillAll(Split(pattern, '/'), values), '/')
  }

  lemma {:induction false} FillDropFront(parts: seq<string>, values: Params)
    requires parts != [] && Fills(values, parts)
    ensures DropFront(FillAll(parts, values)) == FillAll(DropFront(parts), values)
    ensures DropFront(parts) != [] && Fills(values, DropFront(parts))
  {
    if |parts| > 1 && parts[0] == [] {
      FillDropFront(parts[1..], values);
      assert FillAll(parts, values)[1..] == FillAll(parts[1..], values);
    }
  }

  lemma {:induction false} FillDropBack(parts: seq<string>, values: Params)
    requires parts != [] && Fills(values, parts)
    ensures DropBack(FillAll(parts, values)) == FillAll(DropBack(parts), values)
    ensures DropBack(parts) != [] && Fills(values, DropBack(parts))
  {
    var n := |parts| - 1;
    if |parts| > 1 && parts[n] == [] {
      FillDropBack(parts[..n], values);
      assert FillAll(parts, values)[..n] == FillAll(parts[..n], values);
    }
  }

  /** Splitting a filled pattern gives the filled segments, slashes at the ends or not. */
  lemma PartsOfFill(pattern: string, values: Params)
    requires Fills(values, Split(pattern, '/'))
    ensures Parts(Fill(pattern, values)) == FillAll(Parts(pattern), values)
    ensures Fills(values, Parts(pattern))
  {
    var parts := Split(pattern, '/');
    SplitInvertsJoin(FillAll(parts, values), '/');
    PartsOf(Fill(pattern, values));
    PartsOf(pattern);
    FillDropFront(parts, values);
    FillDropBack(DropFront(parts), values);
  }

  function Names(parts: seq<string>): set<string> {
    if parts == [] then {}
    else (if IsParam(parts[0]) then {Name(parts[0])} else {}) + Names(parts[1..])
  }

  lemma {:induction false} MatchFilled(parts: seq<string>, values: Params, params: Params) returns (out: Params)
    requires Fills(values, parts)
    requires forall i :: 0 <= i < |parts| ==> !IsCatchAll(parts[i])
    ensures MatchParts(parts, FillAll(parts, values), params) == Some(out)
    ensures out.Keys == params.Keys + Names(parts)
    ensures forall n :: n in out ==> if n in Names(parts) then n in values && out[n] == values[n] else n in params && out[n] == params[n]
    decreases parts
  {
    if parts == [] {
      return params;
    }
    var rest := parts[1..];
    assert FillAll(parts, values)[1..] == FillAll(rest, values);
    assert forall i :: 0 <= i < |rest| ==> rest[i] == parts[i + 1];
    if IsParam(parts[0]) {
      assert !IsCatchAll(parts[0]);
      out := MatchFilled(rest, values, params[Name(parts[0]) := values[Name(parts[0])]]);
    } else {
      out := MatchFilled(rest, values, params);
    }
  }

  /** A pattern without catch-all segments, filled with non-empty slash-free values, is
      matched, and the match returns exactly those values. */
  lemma FillThenMatch(pattern: string, values: Params)
    requires Fills(values, Split(pattern, '/'))
    requires forall i :: 0 <= i < |Parts(pattern)| ==> !IsCatchAll(Parts(pattern)[i])
    ensures var out := Matched(pattern, Fill(pattern, values));
            && out.Some? && out.value.Keys == Names(Parts(pattern))
            && forall n :: n in out.value ==> n in values && out.value[n] == values[n]
  {
    PartsOfFill(pattern, values);
    var out := MatchFilled(Parts(pattern), values, map[]);
  }

  // -------------------------------------------------------- module prefix

  /** extractModuleFromPath. */
  function ExtractModule(prefix: string, path: string): (string, string) {
    if !(prefix <= path) then ("", "")
    else
      var remaining := path[|prefix|..];
      if remaining == "" then ("", "")
      else
        var i := IndexOf(remaining, '/');
        if i == |remaining| then (remaining, "/") else (remaining[..i], remaining[i..])
  }

  lemma {:induction false} IndexOfAfter(a: string, b: string, c: char)
    requires c !in a && b != [] && b[0] == c
    ensures IndexOf(a + b, c) == |a|
  {
    if a != [] {
      assert (a + b)[1..] == a[1..] + b;
      IndexOfAfter(a[1..], b, c);
    }
  }

  lemma ModuleOfPath(prefix: string, id: string, rest: string)
    requires id != [] && '/' !in id && rest != [] && rest[0] == '/'
    ensures ExtractModule(prefix, prefix + id + rest) == (id, rest)
  {
    var path := prefix + id + rest;
    assert path[|prefix|..] == id + rest;
    IndexOfAfter(id, rest, '/');
    assert (id + rest)[..|id|] == id && (id + rest)[|id|..] == rest;
  }

  /** A route as GetModuleRoutes lists it (prefix + module + pattern), filled in, is split
      back to that module and matched by that pattern with exactly those values. */
  lemma ListedRouteIsServed(prefix: string, id: string, pattern: string, values: Params)
    requires id != [] && '/' !in id && pattern != [] && pattern[0] == '/'
    requires Fills(values, Split(pattern, '/'))
    requires forall i :: 0 <= i < |Parts(pattern)| ==> !IsCatchAll(Parts(pattern)[i])
    ensures var (got, rest) := ExtractModule(prefix, prefix + id + Fill(pattern, values));
            && got == id && rest == Fill(pattern, values)
            && var out := Matched(pattern, rest);
               && out.Some? && out.value.Keys == Names(Parts(pattern))
               && forall n :: n in out.value ==> n in values && out.value[n] == values[n]
  {
    var rest := Fill(pattern, values);
    assert rest != [] && rest[0] == '/' by { FillKeepsSlash(pattern, values); }
    assert ExtractModule(prefix, prefix + id + rest) == (id, rest) by { ModuleOfPath(prefix, id, rest); }
    FillThenMatch(pattern, values);
  }

  lemma FillKeepsSlash(pattern: string, values: Params)
    requires pattern != [] && pattern[0] == '/'
    ensures Fill(pattern, values) != [] && Fill(pattern, values)[0] == '/'
  {
  }

  /** How a path is split, on every path: the id is what stands between the prefix and the
      next slash, the rest starts with that slash, or is "/" if there is none; a path
      without the prefix, or with nothing behind it, has neither. */
  lemma ModuleSplit(prefix: string, path: string)
    ensures !(prefix <= path) || path == prefix ==> ExtractModule(prefix, path) == ("", "")
    ensures prefix < path ==>
              var (id, rest) := ExtractModule(prefix, path);
              && '/' !in id && rest != "" && rest[0] == '/'
              && (path == prefix + id + rest || (rest == "/" && path == prefix + id))
  {
    if prefix < path {
      var remaining := path[|prefix|..];
      assert path == prefix + remaining;
      var i := IndexOf(remaining, '/');
      if i < |remaining| {
        assert remaining == remaining[..i] + remaining[i..];
      } else {
        assert remaining[..i] == remaining;
      }
    }
  }

  // ------------------------------------------------- matching then filling

  /** Keys bound while matching, in order, up to and including a catch-all. */
  function Keys(ps: seq<string>): seq<string> {
    if ps == [] then []
    else if !IsParam(ps[0]) then Keys(ps[1..])
    else if CatchAll(Name(ps[0])) then [CatchAllKey(Name(ps[0]))]
    else [Name(ps[0])] + Keys(ps[1..])
  }

  predicate HasCatchAll(ps: seq<string>) {
    exists i :: 0 <= i < |ps| && IsCatchAll(ps[i])
  }

  /** The segments with the bound values put back; a catch-all ends the path. */
  function Rebuild(ps: seq<string>, params: Params): seq<string> {
    if ps == [] then []
    else if !IsParam(ps[0]) then [ps[0]] + Rebuild(ps[1..], params)
    else
      var name := Name(ps[0]);
      var key := if CatchAll(name) then CatchAllKey(name) else name;
      var value := if key in params then params[key] else "";
      if CatchAll(name) then [value] else [value] + Rebuild(ps[1..], params)
  }

  lemma JoinCons(x: string, rest: seq<string>)
    requires rest != []
    ensures Join([x] + rest, '/') == x + "/" + Join(rest, '/')
  {
  }

  lemma {:induction false} JoinPrefixShorter(qs: seq<string>, k: nat)
    requires 0 < k < |qs|
    ensures |Join(qs[..k], '/')| < |Join(qs, '/')|
  {
    if k > 1 {
      JoinPrefixShorter(qs[1..], k - 1);
      assert qs[..k] == [qs[0]] + qs[1..][..k - 1];
      JoinCons(qs[0], qs[1..][..k - 1]);
    } else {
      assert qs[..1] == [qs[0]];
    }
  }

  /** What the rebuilt segments spell: the path so far as the pattern looked at it. */
  function Covered(ps: seq<string>, qs: seq<string>): string {
    if HasCatchAll(ps) || |ps| > |qs| then Join(qs, '/') else Join(qs[..|ps|], '/')
  }

  lemma CatchAllTail(ps: seq<string>)
    requires ps != [] && !IsCatchAll(ps[0])
    ensures HasCatchAll(ps) <==> HasCatchAll(ps[1..])
  {
  }

  /** Name of the first segment, if any, and the names after it. */
  lemma KeysTail(ps: seq<string>)
    requires ps != [] && !IsCatchAll(ps[0]) && Distinct(Keys(ps))
    ensures Distinct(Keys(ps[1..]))
    ensures ToSet(Keys(ps)) == ToSet(Keys(ps[1..])) + if IsParam(ps[0]) then {Name(ps[0])} else {}
    ensures IsParam(ps[0]) ==> Name(ps[0]) !in ToSet(Keys(ps[1..]))
  {
    if IsParam(ps[0]) {
      assert Keys(ps) == [Name(ps[0])] + Keys(ps[1..]);
      DistinctTail(Name(ps[0]), Keys(ps[1..]));
    }
  }

  lemma DistinctTail(x: string, rest: seq<string>)
    requires Distinct([x] + rest)
    ensures Distinct(rest) && x !in rest && ToSet([x] + rest) == ToSet(rest) + {x}
  {
    var all := [x] + rest;
    assert forall i :: 0 <= i < |rest| ==> rest[i] == all[i + 1];
    assert all[0] == x;
  }

  /** Values already bound when the first segment has been matched. */
  function Bound(ps: seq<string>, qs: seq<string>, params: Params): Params
    requires ps != [] && qs != []
  {
    if IsParam(ps[0]) then params[Name(ps[0]) := qs[0]] else params
  }

  lemma {:induction false} MatchedKeys(ps: seq<string>, qs: seq<string>, params: Params, out: Params)
    requires MatchParts(ps, qs, params) == Some(out)
    requires Distinct(Keys(ps)) && ToSet(Keys(ps)) !! params.Keys
    ensures forall k :: k in params ==> k in out && out[k] == params[k]
    ensures out.Keys == params.Keys + ToSet(Keys(ps))
    ensures ps != [] ==> qs != []
    ensures |ps| <= |qs| || HasCatchAll(ps)
  {
    if ps != [] && !IsCatchAll(ps[0]) {
      KeysTail(ps);
      CatchAllTail(ps);
      MatchedKeys(ps[1..], qs[1..], Bound(ps, qs, params), out);
    }
  }

  lemma {:induction false} RebuildMatched(ps: seq<string>, qs: seq<string>, params: Params, out: Params)
    requires ps != [] && qs != [] && MatchParts(ps, qs, params) == Some(out)
    requires Distinct(Keys(ps)) && ToSet(Keys(ps)) !! params.Keys
    ensures Join(Rebuild(ps, out), '/') == Covered(ps, qs)
  {
    if !IsCatchAll(ps[0]) {
      var rest, bound := ps[1..], Bound(ps, qs, params);
      KeysTail(ps);
      CatchAllTail(ps);
      MatchedKeys(rest, qs[1..], bound, out);
      assert IsParam(ps[0]) ==> Name(ps[0]) in bound && out[Name(ps[0])] == qs[0];
      assert Rebuild(ps, out) == [qs[0]] + Rebuild(rest, out);
      if rest == [] {
        assert qs[..1] == [qs[0]];
      } else {
        RebuildMatched(rest, qs[1..], bound, out);
        CoveredCons(ps, qs);
        JoinCons(qs[0], Rebuild(rest, out));
      }
    }
  }

  lemma CoveredCons(ps: seq<string>, qs: seq<string>)
    requires |ps| > 1 && |qs| > 1 && (HasCatchAll(ps) <==> HasCatchAll(ps[1..]))
    requires |ps| <= |qs| || HasCatchAll(ps)
    ensures Covered(ps, qs) == qs[0] + "/" + Covered(ps[1..], qs[1..])
  {
    if HasCatchAll(ps) {
      assert qs == [qs[0]] + qs[1..];
      JoinCons(qs[0], qs[1..]);
    } else {
      var k := |ps|;
      assert qs[..k] == [qs[0]] + qs[1..][..k - 1];
      JoinCons(qs[0], qs[1..][..k - 1]);
    }
  }

  /** The segments of the pattern that are compared with the path: those before the first
      catch-all. */
  function Compared(ps: seq<string>): (n: nat)
    ensures n <= |ps| && (n < |ps| ==> IsCatchAll(ps[n]))
    ensures forall i :: 0 <= i < n ==> !IsCatchAll(ps[i])
  {
    if ps == [] || IsCatchAll(ps[0]) then 0
    else
      assert forall i :: 1 <= i < |ps| ==> ps[i] == ps[1..][i - 1];
      1 + Compared(ps[1..])
  }

  /** Literal segments agree, as far as they are compared, and there is a segment for each
      of them and one more for a catch-all. */
  ghost predicate SegmentsAgree(ps: seq<string>, qs: seq<string>) {
    var n := Compared(ps);
    && (if n < |ps| then n < |qs| else n <= |qs|)
    && forall i :: 0 <= i < n && !IsParam(ps[i]) ==> ps[i] == qs[i]
  }

  /** Agreement is agreement of the first segments and of the rest. */
  lemma AgreeStep(ps: seq<string>, qs: seq<string>)
    requires ps != [] && qs != [] && !IsCatchAll(ps[0])
    ensures SegmentsAgree(ps, qs) <==> (IsParam(ps[0]) || ps[0] == qs[0]) && SegmentsAgree(ps[1..], qs[1..])
  {
    var n, rest, tail := Compared(ps), ps[1..], qs[1..];
    assert n == 1 + Compared(rest);
    assert forall i :: 0 <= i < |rest| ==> rest[i] == ps[i + 1];
    assert forall i :: 0 <= i < |tail| ==> tail[i] == qs[i + 1];
    if SegmentsAgree(ps, qs) {
      forall i | 0 <= i < n - 1 && !IsParam(rest[i]) ensures rest[i] == tail[i] {
        assert ps[i + 1] == qs[i + 1];
      }
    }
    if (IsParam(ps[0]) || ps[0] == qs[0]) && SegmentsAgree(rest, tail) {
      forall i | 0 <= i < n && !IsParam(ps[i]) ensures ps[i] == qs[i] {
        assert i > 0 ==> ps[i] == rest[i - 1] && qs[i] == tail[i - 1];
      }
    }
  }

  lemma {:induction false} MatchesSegments(ps: seq<string>, qs: seq<string>, params: Params)
    ensures MatchParts(ps, qs, params).Some? <==> SegmentsAgree(ps, qs)
  {
    if ps != [] && qs != [] && !IsCatchAll(ps[0]) {
      AgreeStep(ps, qs);
      MatchesSegments(ps[1..], qs[1..], Bound(ps, qs, params));
    }
  }

  /** Which paths a pattern matches, exactly. */
  lemma MatchesExactly(pattern: string, path: string)
    ensures Matched(pattern, path).Some? <==>
              && SegmentsAgree(Parts(pattern), Parts(path))
              && (|Parts(pattern)| == |Parts(path)| || HasStars(pattern))
  {
    MatchesSegments(Parts(pattern), Parts(path), map[]);
  }

  /** Putting the returned values back into a matched pattern rebuilds the trimmed path
      exactly when a catch-all took the rest or the segment counts agree. The exception
      is a pattern that contains "**" without a catch-all the code recognises: it then
      matches longer paths and ignores what follows. */
  lemma MatchThenFill(pattern: string, path: string, out: Params)
    requires Matched(pattern, path) == Some(out) && Distinct(Keys(Parts(pattern)))
    ensures out.Keys == ToSet(Keys(Parts(pattern)))
    ensures Join(Rebuild(Parts(pattern), out), '/') == Trim(path)
            <==> HasCatchAll(Parts(pattern)) || |Parts(pattern)| == |Parts(path)|
  {
    var ps, qs := Parts(pattern), Parts(path);
    MatchedKeys(ps, qs, map[], out);
    RebuildMatched(ps, qs, map[], out);
    JoinInvertsSplit(Trim(path), '/');
    if !HasCatchAll(ps) {
      if |ps| < |qs| {
        JoinPrefixShorter(qs, |ps|);
      } else {
        assert qs[..|qs|] == qs;
      }
    }
  }

  /** What the braces of "{name=**}" hold, as the code reads it. */
  lemma NamedWildcardName(name: string)
    requires name != [] && '=' !in name
    ensures var part := "{" + name + "=**}"; IsParam(part) && Name(part) == name && HasStars(part)
  {
    var part := "{" + name + "=**}";
    var inner := part[1..|part| - 1];
    assert inner == name + "=**";
    IndexOfAfter(name, "=**", '=');
    assert inner[..|name|] == name;
    assert part[|name| + 2] == '*' && part[|name| + 3] == '*';
  }

  lemma SuffixHasEquals(name: string)
    requires HasSuffix(name, "=**")
    ensures '=' in name
  {
    assert name[|name| - 3] == name[|name| - 3..][0];
  }

  /** "{name=**}" is such a pattern: its name is cut at the '=' before the wildcard test, so
      it binds one segment and drops the rest, unless the name itself is "**". */
  lemma NamedWildcardBindsOneSegment(name: string, path: string)
    requires name != [] && '=' !in name && '/' !in name
    ensures Matched("/{" + name + "=**}", path) == Some(map[name := if name == "**" then Join(Parts(path), '/') else Parts(path)[0]])
  {
    var part := "{" + name + "=**}";
    var pattern := "/{" + name + "=**}";
    NamedWildcardName(name);
    assert pattern == "/" + part && '/' !in part;
    PartsOfJoin([part]);
    assert HasStars(pattern) by { assert pattern[|name| + 3] == '*' && pattern[|name| + 4] == '*'; }
    if HasSuffix(name, "=**") {
      SuffixHasEquals(name);
      assert false;
    }
    var qs := Parts(path);
    assert Parts(pattern) == [part] && [part][1..] == [];
    if name != "**" {
      assert MatchParts([part], qs, map[]) == MatchParts([], qs[1..], map[name := qs[0]]);
    }
  }
}
