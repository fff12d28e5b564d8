/** The `search` command of the command-line client: the available packages are filtered by
    the query (name or description, ignoring case), ranked (name-prefix matches first, then
    name matches, then description-only matches, each group by name) and capped at the limit;
    in interactive mode a line of numbers selects packages to install. */
module Search {
  import opened Wrappers
  import opened Text
  import opened AlpmTypes

  // ---------------------------------------------------------------------------------------
  // Filtering

  /** A package is kept when its name or description contains the (lower-cased) query,
      ignoring case. */
  predicate Matches(q: string, p: Package) {
    ContainsIgnoreCase(p.name, q) || ContainsIgnoreCase(p.description, q)
  }

  /** The `Where` of the query pipeline: the matching packages, in their original order. */
  function Filter(q: string, ps: seq<Package>): (r: seq<Package>)
    ensures |r| <= |ps|
    decreases |ps|
  {
    if ps == [] then []
    else Filter(q, ps[..|ps| - 1]) + if Matches(q, ps[|ps| - 1]) then [ps[|ps| - 1]] else []
  }

  /** The filter keeps exactly the matching packages. */
  lemma {:induction false} FilterMeaning(q: string, ps: seq<Package>)
    ensures forall p :: p in Filter(q, ps) <==> p in ps && Matches(q, p)
    decreases |ps|
  {
    if ps != [] {
      var init := ps[..|ps| - 1];
      FilterMeaning(q, init);
      assert ps == init + [ps[|ps| - 1]];
    }
  }

  // ---------------------------------------------------------------------------------------
  // Ranking

  /** The order of `OrderByDescending(name starts with q)`, `ThenByDescending(name contains
      q)`, `ThenBy(name)`, as a sign: negative when `a` ranks first. */
  function RankCompare(q: string, a: Package, b: Package): (r: int)
    ensures r == -1 || r == 0 || r == 1
  {
    var pa, pb := StartsWithIgnoreCase(a.name, q), StartsWithIgnoreCase(b.name, q);
    var ca, cb := ContainsIgnoreCase(a.name, q), ContainsIgnoreCase(b.name, q);
    if pa != pb then (if pa then -1 else 1)
    else if ca != cb then (if ca then -1 else 1)
    else CompareOrdinal(a.name, b.name)
  }

  lemma RankAntisymmetric(q: string, a: Package, b: Package)
    ensures RankCompare(q, a, b) == -RankCompare(q, b, a)
  {
    CompareOrdinalAntisymmetric(a.name, b.name);
  }

  lemma RankTransitive(q: string, a: Package, b: Package, c: Package)
    requires RankCompare(q, a, b) <= 0 && RankCompare(q, b, c) <= 0
    ensures RankCompare(q, a, c) <= 0
  {
    if StartsWithIgnoreCase(a.name, q) == StartsWithIgnoreCase(b.name, q) == StartsWithIgnoreCase(c.name, q)
       && ContainsIgnoreCase(a.name, q) == ContainsIgnoreCase(b.name, q) == ContainsIgnoreCase(c.name, q) {
      CompareOrdinalTransitive(a.name, b.name, c.name);
    }
  }

  predicate Ranked(q: string, s: seq<Package>) {
    forall i, j :: 0 <= i < j < |s| ==> RankCompare(q, s[i], s[j]) <= 0
  }

  /** Places `x` before the first element that ranks strictly after it, so that equal-ranked
      elements keep their order of arrival. */
  function Insert(q: string, x: Package, s: seq<Package>): (r: seq<Package>)
    ensures |r| == |s| + 1
    decreases |s|
  {
    if s == [] then [x]
    else if RankCompare(q, x, s[0]) < 0 then [x] + s
    else [s[0]] + Insert(q, x, s[1..])
  }

  /** The ordering of the query pipeline: a stable sort by rank. */
  function Rank(q: string, ps: seq<Package>): (r: seq<Package>)
    ensures |r| == |ps|
    decreases |ps|
  {
    if ps == [] then [] else Insert(q, ps[|ps| - 1], Rank(q, ps[..|ps| - 1]))
  }

  lemma {:induction false} InsertPermutes(q: string, x: Package, s: seq<Package>)
    ensures multiset(Insert(q, x, s)) == multiset(s) + multiset{x}
    decreases |s|
  {
    if s != [] && RankCompare(q, x, s[0]) >= 0 {
      InsertPermutes(q, x, s[1..]);
      assert s == [s[0]] + s[1..];
    }
  }

  /** An element ranked no later than every element of a ranked sequence may head it. */
  lemma RankedCons(q: string, y: Package, t: seq<Package>)
    requires Ranked(q, t)
    requires forall j :: 0 <= j < |t| ==> RankCompare(q, y, t[j]) <= 0
    ensures Ranked(q, [y] + t)
  {
    var r := [y] + t;
    forall i, j | 0 <= i < j < |r| ensures RankCompare(q, r[i], r[j]) <= 0 {
      if i == 0 {
        assert r[j] == t[j - 1];
      } else {
        assert r[i] == t[i - 1] && r[j] == t[j - 1];
      }
    }
  }

  /** What ranks no later than `x` and every element of `t` ranks no later than every element
      of a rearrangement of `t` plus `x`. */
  lemma BoundedByAll(q: string, y: Package, x: Package, t: seq<Package>, u: seq<Package>)
    requires RankCompare(q, y, x) <= 0
    requires forall j :: 0 <= j < |t| ==> RankCompare(q, y, t[j]) <= 0
    requires multiset(u) == multiset(t) + multiset{x}
    ensures forall j :: 0 <= j < |u| ==> RankCompare(q, y, u[j]) <= 0
  {
    forall j | 0 <= j < |u| ensures RankCompare(q, y, u[j]) <= 0 {
      assert u[j] in multiset(u);
      if u[j] != x {
        assert u[j] in multiset(t);
        var k :| 0 <= k < |t| && t[k] == u[j];
      }
    }
  }

  lemma {:induction false} InsertRanked(q: string, x: Package, s: seq<Package>)
    requires Ranked(q, s)
    ensures Ranked(q, Insert(q, x, s))
    decreases |s|
  {
    if s == [] {
    } else if RankCompare(q, x, s[0]) < 0 {
      forall j | 0 <= j < |s| ensures RankCompare(q, x, s[j]) <= 0 {
        if j > 0 {
          RankTransitive(q, x, s[0], s[j]);
        }
      }
      RankedCons(q, x, s);
    } else {
      var t := s[1..];
      assert Ranked(q, t);
      InsertRanked(q, x, t);
      InsertPermutes(q, x, t);
      RankAntisymmetric(q, x, s[0]);
      BoundedByAll(q, s[0], x, t, Insert(q, x, t));
      RankedCons(q, s[0], Insert(q, x, t));
    }
  }

  /** The ranking is ordered and keeps every package, duplicates included. */
  lemma {:induction false} RankMeaning(q: string, ps: seq<Package>)
    ensures Ranked(q, Rank(q, ps))
    ensures multiset(Rank(q, ps)) == multiset(ps)
    decreases |ps|
  {
    if ps != [] {
      var init := ps[..|ps| - 1];
      RankMeaning(q, init);
      InsertRanked(q, ps[|ps| - 1], Rank(q, init));
      InsertPermutes(q, ps[|ps| - 1], Rank(q, init));
      assert ps == init + [ps[|ps| - 1]];
    }
  }

  /** `Take(n)`: the first `n` elements, all of them when there are fewer, none for `n <= 0`. */
  function Take(s: seq<Package>, n: int): (r: seq<Package>)
    ensures |r| == if n <= 0 then 0 else if n < |s| then n else |s|
    ensures r == s[..|r|]
  {
    if n <= 0 then [] else if n < |s| then s[..n] else s
  }

  /** The query pipeline: the query is lower-cased, then filtered, ranked and capped. */
  function Results(all: seq<Package>, query: string, limit: int): seq<Package> {
    var q := Lower(query);
    Take(Rank(q, Filter(q, all)), limit)
  }

  /** The results are matching packages, at most `limit` of them, ranked, and they are the
      best-ranked prefix of a ranking of all matches. */
  lemma ResultsMeaning(all: seq<Package>, query: string, limit: int)
    ensures var q := Lower(query);
      var r := Results(all, query, limit);
      var ranked := Rank(q, Filter(q, all));
      (forall p :: p in r ==> p in all && Matches(q, p))
      && |r| == (if limit <= 0 then 0 else if limit < |ranked| then limit else |ranked|)
      && Ranked(q, r)
      && multiset(ranked) == multiset(Filter(q, all)) && r == ranked[..|r|]
  {
    var q := Lower(query);
    var filtered := Filter(q, all);
    FilterMeaning(q, all);
    RankMeaning(q, filtered);
    var ranked := Rank(q, filtered);
    var r := Results(all, query, limit);
    forall p | p in r ensures p in all && Matches(q, p) {
      assert p in multiset(ranked);
    }
  }

  /** A package whose name starts with the query ranks before every package whose name
      does not. */
  lemma PrefixMatchesFirst(query: string, all: seq<Package>, limit: int, i: int, j: int)
    requires var r := Results(all, query, limit); 0 <= i < |r| && 0 <= j < |r|
    requires var r := Results(all, query, limit);
      StartsWithIgnoreCase(r[j].name, Lower(query)) && !StartsWithIgnoreCase(r[i].name, Lower(query))
    ensures j < i
  {
    var q := Lower(query);
    ResultsMeaning(all, query, limit);
    var r := Results(all, query, limit);
    assert RankCompare(q, r[i], r[j]) == 1;
  }

  // ---------------------------------------------------------------------------------------
  // Numbered selection

  /** The result a token selects among `results`: a number from 1 to their count picks that
      result, anything else picks nothing. */
  function Pick(token: string, results: seq<Package>): (r: seq<Package>)
    ensures |r| <= 1
    ensures r != [] ==> r[0] in results
  {
    var n := TryParseInt32(token);
    if n.Some? && 1 <= n.value <= |results| then [results[n.value - 1]] else []
  }

  /** The packages a list of tokens selects: each valid number picks its result, invalid
      tokens are skipped, order and repetitions are kept. */
  function Selected(tokens: seq<string>, results: seq<Package>): (r: seq<Package>)
    ensures |r| <= |tokens|
    decreases |tokens|
  {
    if tokens == [] then []
    else Selected(tokens[..|tokens| - 1], results) + Pick(tokens[|tokens| - 1], results)
  }

  lemma SelectedSnoc(tokens: seq<string>, i: int, results: seq<Package>)
    requires 0 <= i < |tokens|
    ensures Selected(tokens[..i + 1], results) == Selected(tokens[..i], results) + Pick(tokens[i], results)
  {
    assert tokens[..i + 1][..i] == tokens[..i];
  }

  /** Selection distributes over the tokens: the picks of a line are the picks of its parts
      in order. */
  lemma {:induction false} SelectedAppend(a: seq<string>, b: seq<string>, results: seq<Package>)
    ensures Selected(a + b, results) == Selected(a, results) + Selected(b, results)
    decreases |b|
  {
    if b == [] {
      assert a + b == a;
    } else {
      var ab, n := a + b, |b| - 1;
      var k := |a| + n;
      calc {
        Selected(ab, results);
        { assert ab[..k + 1] == ab; SelectedSnoc(ab, k, results); }
        Selected(ab[..k], results) + Pick(ab[k], results);
        { assert ab[..k] == a + b[..n]; }
        Selected(a + b[..n], results) + Pick(b[n], results);
        { SelectedAppend(a, b[..n], results); }
        Selected(a, results) + Selected(b[..n], results) + Pick(b[n], results);
        { AppendAssoc(Selected(a, results), Selected(b[..n], results), Pick(b[n], results)); }
        Selected(a, results) + (Selected(b[..n], results) + Pick(b[n], results));
        { assert b[..n + 1] == b; SelectedSnoc(b, n, results); }
        Selected(a, results) + Selected(b, results);
      }
    }
  }

  /** The selection loop over the parts of the typed line. */
  method ParseSelection(parts: seq<string>, results: seq<Package>) returns (selected: seq<Package>)
    ensures selected == Selected(parts, results)
  {
    selected := [];
    var i := 0;
    while i < |parts|
      invariant 0 <= i <= |parts|
      invariant selected == Selected(parts[..i], results)
    {
      SelectedSnoc(parts, i, results);
      selected := selected + Pick(parts[i], results);
      i := i + 1;
    }
    assert parts[..i] == parts;
  }

  function Names(ps: seq<Package>): (r: seq<string>)
    ensures |r| == |ps| && forall i :: 0 <= i < |ps| ==> r[i] == ps[i].name
  {
    seq(|ps|, i requires 0 <= i < |ps| => ps[i].name)
  }

  // ---------------------------------------------------------------------------------------
  // The command

  /** The command's settings. */
  datatype Settings = Settings(query: string, limit: int, interactive: bool, noConfirm: bool, json: bool)

  /** What the command meets at run time: the available packages (`None` when opening the
      engine or listing them throws), the line typed at the prompt (`None` at end of input),
      the answer to the confirmation, and whether installing throws. */
  datatype Console = Console(available: Option<seq<Package>>, line: Option<string>, confirmed: bool, installThrows: bool)

  /** The exit code, whether the packages were searched at all, and the names handed to
      `InstallPackages`, if it was called. */
  datatype Outcome = Outcome(code: int, searched: bool, installed: Option<seq<string>>)

  /** `Execute`, branch by branch. */
  function Execute(s: Settings, c: Console): Outcome {
    if IsNullOrWhiteSpace(Some(s.query)) then Outcome(1, false, None)
    else if c.available.None? then Outcome(1, true, None)
    else
      var results := Results(c.available.value, s.query, s.limit);
      if results == [] || s.json || !s.interactive then Outcome(0, true, None)
      else
        var input := if c.line.Some? then Some(Trim(c.line.value)) else None;
        if IsNullOrWhiteSpace(input) then Outcome(0, true, None)
        else
          var selected := Selected(Tokens(input.value, ' '), results);
          if selected == [] || (!s.noConfirm && !c.confirmed) then Outcome(0, true, None)
          else Outcome(if c.installThrows then 1 else 0, true, Some(Names(selected)))
  }

  /** The command as the client runs it. */
  method Run(s: Settings, c: Console) returns (o: Outcome)
    ensures o == Execute(s, c)
  {
    if IsNullOrWhiteSpace(Some(s.query)) {
      return Outcome(1, false, None);
    }
    if c.available.None? {
      return Outcome(1, true, None);
    }
    var results := Results(c.available.value, s.query, s.limit);
    if results == [] || s.json || !s.interactive {
      return Outcome(0, true, None);
    }
    var input := if c.line.Some? then Some(Trim(c.line.value)) else None;
    if IsNullOrWhiteSpace(input) {
      return Outcome(0, true, None);
    }
    var selected := ParseSelection(Tokens(input.value, ' '), results);
    if selected == [] || (!s.noConfirm && !c.confirmed) {
      return Outcome(0, true, None);
    }
    var names := Names(selected);
    o := Outcome(if c.installThrows then 1 else 0, true, Some(names));
  }

  /** A blank query fails with 1 before anything is searched; otherwise installation is
      requested exactly when the line selects something and it is confirmed (or confirmation
      is off), and then with the names of the selected results in the order typed. */
  lemma ExecuteMeaning(s: Settings, c: Console)
    ensures var o := Execute(s, c);
      (IsNullOrWhiteSpace(Some(s.query)) ==> o.code == 1 && !o.searched && o.installed.None?)
      && (o.installed.Some? <==>
            !IsNullOrWhiteSpace(Some(s.query)) && c.available.Some? && s.interactive && !s.json
            && c.line.Some? && !IsNullOrWhiteSpace(Some(Trim(c.line.value)))
            && Selected(Tokens(Trim(c.line.value), ' '), Results(c.available.value, s.query, s.limit)) != []
            && (s.noConfirm || c.confirmed))
      && (o.installed.Some? ==>
            o.installed.value == Names(Selected(Tokens(Trim(c.line.value), ' '), Results(c.available.value, s.query, s.limit)))
            && (o.code == 0 <==> !c.installThrows))
      && (o.installed.None? && !IsNullOrWhiteSpace(Some(s.query)) ==> (o.code == 1 <==> c.available.None?))
  {
    if !IsNullOrWhiteSpace(Some(s.query)) && c.available.Some? {
      var results := Results(c.available.value, s.query, s.limit);
      if results == [] && c.line.Some? {
        SelectedNone(Tokens(Trim(c.line.value), ' '), results);
      }
    }
  }

  /** With no results, nothing can be selected. */
  lemma {:induction false} SelectedNone(tokens: seq<string>, results: seq<Package>)
    requires results == []
    ensures Selected(tokens, results) == []
    decreases |tokens|
  {
    if tokens != [] {
      SelectedNone(tokens[..|tokens| - 1], results);
    }
  }
}
