/** `re.search` for the fixed regular expressions of the grid runners: literals
    and one-or-more runs of a character class, where every run is followed by a
    literal that cannot continue it, or ends the pattern. For these patterns the
    greedy left-to-right reading below is the only way the text can match, so no
    backtracking is needed. */
module Patterns {
  import opened Wrappers
  import opened Text

  datatype Tok = Lit(text: string) | Run(cls: CharClass)

  /** Every run is either last or followed by a non-empty literal whose first
      character is outside the run's class. */
  predicate WellFormed(pat: seq<Tok>) {
    forall k :: 0 <= k < |pat| && pat[k].Run? ==>
      k + 1 == |pat| || (pat[k + 1].Lit? && pat[k + 1].text != [] && !InClass(pat[k + 1].text[0], pat[k].cls))
  }

  /** The match of `pat` at the start of `s`, as its groups (one per run). */
  function MatchAt(s: string, pat: seq<Tok>): Option<seq<string>>
    decreases |pat|
  {
    if pat == [] then Some([])
    else match pat[0]
      case Lit(t) =>
        if StartsWith(s, t) then MatchAt(s[|t|..], pat[1..]) else None
      case Run(c) =>
        var e := RunEnd(s, 0, c);
        if e == 0 then None
        else match MatchAt(s[e..], pat[1..])
          case None => None
          case Some(gs) => Some([s[..e]] + gs)
  }

  function Runs(pat: seq<Tok>): nat {
    if pat == [] then 0 else (if pat[0].Run? then 1 else 0) + Runs(pat[1..])
  }

  /** `gs` are non-empty strings of the runs' classes, one per run. */
  predicate GroupsFit(pat: seq<Tok>, gs: seq<string>)
    decreases |pat|
  {
    if pat == [] then gs == []
    else if pat[0].Lit? then GroupsFit(pat[1..], gs)
    else gs != [] && gs[0] != [] && AllInClass(gs[0], pat[0].cls) && GroupsFit(pat[1..], gs[1..])
  }

  lemma {:induction false} GroupsFitCount(pat: seq<Tok>, gs: seq<string>)
    requires GroupsFit(pat, gs)
    ensures |gs| == Runs(pat)
    decreases |pat|
  {
    if pat != [] {
      if pat[0].Lit? { GroupsFitCount(pat[1..], gs); } else { GroupsFitCount(pat[1..], gs[1..]); }
    }
  }

  /** The text the pattern spells with the groups `gs` filled in. */
  function Spell(pat: seq<Tok>, gs: seq<string>): string
    requires GroupsFit(pat, gs)
    decreases |pat|
  {
    if pat == [] then []
    else if pat[0].Lit? then pat[0].text + Spell(pat[1..], gs)
    else gs[0] + Spell(pat[1..], gs[1..])
  }

  /** A literal followed by a run, in front of the rest of a pattern. */
  lemma SpellLitRun(t: string, c: CharClass, pat: seq<Tok>, g: string, gs: seq<string>)
    requires g != [] && AllInClass(g, c) && GroupsFit(pat, gs)
    ensures GroupsFit([Lit(t), Run(c)] + pat, [g] + gs)
    ensures Spell([Lit(t), Run(c)] + pat, [g] + gs) == t + g + Spell(pat, gs)
  {
    var p := [Lit(t), Run(c)] + pat;
    assert p[1..] == [Run(c)] + pat;
    assert p[1..][1..] == pat;
    assert ([g] + gs)[1..] == gs;
  }

  /** The same for a pattern whose first two tokens are a literal and a run. */
  lemma SpellLitRunAt(pat: seq<Tok>, g: string, gs: seq<string>)
    requires |pat| >= 2 && pat[0].Lit? && pat[1].Run?
    requires g != [] && AllInClass(g, pat[1].cls) && GroupsFit(pat[2..], gs)
    ensures GroupsFit(pat, [g] + gs)
    ensures Spell(pat, [g] + gs) == pat[0].text + g + Spell(pat[2..], gs)
  {
    assert pat[1..][0] == pat[1] && pat[1..][1..] == pat[2..];
    assert ([g] + gs)[0] == g && ([g] + gs)[1..] == gs;
  }

  /** A leading literal and four runs, separated by one literal, spell the
      literals and the four groups in turn. */
  lemma SpellFourRuns(pat: seq<Tok>, lead: string, sep: string, c: CharClass, e: string, m: string, k: string, u: string)
    requires pat == [Lit(lead), Run(c), Lit(sep), Run(c), Lit(sep), Run(c), Lit(sep), Run(c)]
    requires e != [] && AllInClass(e, c) && m != [] && AllInClass(m, c)
    requires k != [] && AllInClass(k, c) && u != [] && AllInClass(u, c)
    ensures GroupsFit(pat, [e, m, k, u])
    ensures Spell(pat, [e, m, k, u]) == lead + e + (sep + m + (sep + k + (sep + u)))
  {
    var q2 := pat[2..];
    var q4 := q2[2..];
    var q6 := q4[2..];
    assert |q6| == 2 && q6[0] == Lit(sep) && q6[1] == Run(c);
    assert GroupsFit(q6, [u]) && Spell(q6, [u]) == sep + u by {
      assert q6[2..] == [];
      SpellLitRunAt(q6, u, []);
      assert [u] + [] == [u] && sep + u + [] == sep + u;
    }
    assert GroupsFit(q4, [k, u]) && Spell(q4, [k, u]) == sep + k + (sep + u) by {
      assert q4[0] == Lit(sep) && q4[1] == Run(c);
      SpellLitRunAt(q4, k, [u]);
      assert [k] + [u] == [k, u];
    }
    assert GroupsFit(q2, [m, k, u]) && Spell(q2, [m, k, u]) == sep + m + (sep + k + (sep + u)) by {
      assert q2[0] == Lit(sep) && q2[1] == Run(c);
      SpellLitRunAt(q2, m, [k, u]);
      assert [m] + [k, u] == [m, k, u];
    }
    SpellLitRunAt(pat, e, [m, k, u]);
    assert [e] + [m, k, u] == [e, m, k, u];
  }

  /** What follows the match cannot continue a final run. */
  predicate Maximal(rest: string, pat: seq<Tok>) {
    pat != [] && pat[|pat| - 1].Run? && rest != [] ==> !InClass(rest[0], pat[|pat| - 1].cls)
  }

  lemma RunEndAt(s: string, j: nat, cls: CharClass)
    requires j <= |s| && AllInClass(s[..j], cls)
    requires j < |s| ==> !InClass(s[j], cls)
    ensures RunEnd(s, 0, cls) == j
  {
    var e := RunEnd(s, 0, cls);
    forall k | 0 <= k < j ensures InClass(s[k], cls) {
      assert s[..j][k] == s[k];
    }
    forall k | 0 <= k < e ensures InClass(s[k], cls) {
      assert s[0..e][k] == s[k];
    }
  }

  lemma WellFormedTail(pat: seq<Tok>)
    requires pat != [] && WellFormed(pat)
    ensures WellFormed(pat[1..])
  {
    forall k | 0 <= k < |pat[1..]| && pat[1..][k].Run?
      ensures k + 1 == |pat[1..]| || (pat[1..][k + 1].Lit? && pat[1..][k + 1].text != [] && !InClass(pat[1..][k + 1].text[0], pat[1..][k].cls))
    {
      assert pat[1..][k] == pat[k + 1];
    }
  }

  /** A prefix `a` of `s` followed by a prefix `w` of the rest. */
  lemma PrefixThen(s: string, a: string, s': string, w: string)
    requires |a| <= |s| && s[..|a|] == a && s' == s[|a|..] && StartsWith(s', w)
    ensures StartsWith(s, a + w) && s[|a + w|..] == s'[|w|..]
  {
    assert s[..|a| + |w|] == a + s'[..|w|];
  }

  lemma MaximalTail(rest: string, pat: seq<Tok>)
    requires |pat| > 1 && Maximal(rest, pat[1..])
    ensures Maximal(rest, pat)
  {
    assert pat[1..][|pat[1..]| - 1] == pat[|pat| - 1];
  }

  /** A match spells the pattern with groups of the right classes, and a final
      run is as long as it can be. */
  lemma {:induction false} MatchSpells(s: string, pat: seq<Tok>)
    requires MatchAt(s, pat).Some?
    ensures GroupsFit(pat, MatchAt(s, pat).value)
    ensures StartsWith(s, Spell(pat, MatchAt(s, pat).value))
    ensures Maximal(s[|Spell(pat, MatchAt(s, pat).value)|..], pat)
    decreases |pat|
  {
    if pat != [] {
      var gs := MatchAt(s, pat).value;
      match pat[0]
      case Lit(t) =>
        var s' := s[|t|..];
        assert MatchAt(s', pat[1..]).value == gs;
        MatchSpells(s', pat[1..]);
        var w := Spell(pat[1..], gs);
        assert Spell(pat, gs) == t + w;
        PrefixThen(s, t, s', w);
        if |pat| > 1 {
          MaximalTail(s'[|w|..], pat);
        }
      case Run(c) =>
        var e := RunEnd(s, 0, c);
        var s' := s[e..];
        assert MatchAt(s', pat[1..]).value == gs[1..];
        MatchSpells(s', pat[1..]);
        var w := Spell(pat[1..], gs[1..]);
        assert gs[0] == s[..e];
        assert Spell(pat, gs) == s[..e] + w;
        PrefixThen(s, s[..e], s', w);
        if |pat| > 1 {
          MaximalTail(s'[|w|..], pat);
        } else {
          assert w == [];
        }
    }
  }

  lemma MatchLitHead(s: string, pat: seq<Tok>, gs: seq<string>)
    requires pat != [] && pat[0].Lit? && StartsWith(s, pat[0].text)
    requires MatchAt(s[|pat[0].text|..], pat[1..]) == Some(gs)
    ensures MatchAt(s, pat) == Some(gs)
  {
  }

  lemma MatchRunHead(s: string, pat: seq<Tok>, j: nat, gs: seq<string>)
    requires pat != [] && pat[0].Run? && 0 < j <= |s| && RunEnd(s, 0, pat[0].cls) == j
    requires MatchAt(s[j..], pat[1..]) == Some(gs)
    ensures MatchAt(s, pat) == Some([s[..j]] + gs)
  {
  }

  lemma SpellLit(pat: seq<Tok>, gs: seq<string>, rest: string)
    requires pat != [] && pat[0].Lit? && GroupsFit(pat, gs)
    requires MatchAt(Spell(pat[1..], gs) + rest, pat[1..]) == Some(gs)
    ensures MatchAt(Spell(pat, gs) + rest, pat) == Some(gs)
  {
    var s := Spell(pat, gs) + rest;
    var t := pat[0].text;
    var v := Spell(pat[1..], gs) + rest;
    assert s == t + v;
    assert s[..|t|] == t && s[|t|..] == v;
    MatchLitHead(s, pat, gs);
  }

  lemma RunStopsAt(g: string, v: string, c: CharClass)
    requires AllInClass(g, c) && (v != [] ==> !InClass(v[0], c))
    ensures RunEnd(g + v, 0, c) == |g|
  {
    var s := g + v;
    assert s[..|g|] == g;
    assert |g| < |s| ==> s[|g|] == v[0];
    RunEndAt(s, |g|, c);
  }

  /** The run at the head of a spelled pattern stops where its group ends. */
  lemma RunStops(pat: seq<Tok>, gs: seq<string>, rest: string)
    requires pat != [] && pat[0].Run? && WellFormed(pat) && GroupsFit(pat, gs) && Maximal(rest, pat)
    ensures RunEnd(Spell(pat, gs) + rest, 0, pat[0].cls) == |gs[0]|
  {
    var c := pat[0].cls;
    var v := Spell(pat[1..], gs[1..]) + rest;
    SpellHeadRun(pat, gs, rest);
    if |pat| == 1 {
      assert Spell(pat[1..], gs[1..]) == [];
      assert v == rest;
    } else {
      var tail := pat[1..];
      assert tail[0] == pat[1];
      assert pat[1].Lit? && pat[1].text != [] && !InClass(pat[1].text[0], c);
      SpellHeadLit(tail, gs[1..], rest);
    }
    RunStopsAt(gs[0], v, c);
  }

  /** Text that spells a pattern opening with a literal starts with the literal. */
  lemma SpellHeadLit(pat: seq<Tok>, gs: seq<string>, rest: string)
    requires pat != [] && pat[0].Lit? && pat[0].text != [] && GroupsFit(pat, gs)
    ensures (Spell(pat, gs) + rest)[0] == pat[0].text[0]
  {
    var t := pat[0].text;
    var w := Spell(pat[1..], gs);
    assert Spell(pat, gs) == t + w;
    AppendAssoc(t, w, rest);
  }

  lemma SpellRun(pat: seq<Tok>, gs: seq<string>, rest: string)
    requires pat != [] && pat[0].Run? && WellFormed(pat) && GroupsFit(pat, gs) && Maximal(rest, pat)
    requires MatchAt(Spell(pat[1..], gs[1..]) + rest, pat[1..]) == Some(gs[1..])
    ensures MatchAt(Spell(pat, gs) + rest, pat) == Some(gs)
  {
    var s := Spell(pat, gs) + rest;
    var g := gs[0];
    SpellHeadRun(pat, gs, rest);
    RunStops(pat, gs, rest);
    MatchRunHead(s, pat, |g|, gs[1..]);
    assert gs == [g] + gs[1..];
  }

  /** Text that spells a pattern opening with a run starts with the run's group. */
  lemma SpellHeadRun(pat: seq<Tok>, gs: seq<string>, rest: string)
    requires pat != [] && pat[0].Run? && GroupsFit(pat, gs)
    ensures var s := Spell(pat, gs) + rest;
      && s == gs[0] + (Spell(pat[1..], gs[1..]) + rest)
      && |gs[0]| <= |s| && s[..|gs[0]|] == gs[0] && s[|gs[0]|..] == Spell(pat[1..], gs[1..]) + rest
  {
    var g := gs[0];
    var w := Spell(pat[1..], gs[1..]);
    assert Spell(pat, gs) == g + w;
    AppendAssoc(g, w, rest);
    AppendSlices(g, w + rest);
  }

  /** Text that spells the pattern, with a final run as long as it can be, is a
      match with exactly those groups: the decomposition is unique. */
  lemma {:induction false} SpellMatches(pat: seq<Tok>, gs: seq<string>, rest: string)
    requires WellFormed(pat) && GroupsFit(pat, gs) && Maximal(rest, pat)
    ensures MatchAt(Spell(pat, gs) + rest, pat) == Some(gs)
    decreases |pat|
  {
    if pat != [] {
      WellFormedTail(pat);
      assert Maximal(rest, pat[1..]) by {
        assert pat[1..] != [] ==> pat[1..][|pat[1..]| - 1] == pat[|pat| - 1];
      }
      if pat[0].Lit? {
        SpellMatches(pat[1..], gs, rest);
        SpellLit(pat, gs, rest);
      } else {
        SpellMatches(pat[1..], gs[1..], rest);
        SpellRun(pat, gs, rest);
      }
    }
  }

  /** The pattern does not match at position `q` of `s`. */
  predicate NoMatchAt(s: string, pat: seq<Tok>, q: nat)
    requires q <= |s|
  {
    MatchAt(s[q..], pat).None?
  }

  /** Nowhere in `s` does the pattern match. */
  predicate NoMatchIn(s: string, pat: seq<Tok>) {
    forall q :: 0 <= q <= |s| ==> NoMatchAt(s, pat, q)
  }

  /** `re.search(pat, s[i:])` as positions: the leftmost start of a match. */
  function Search(s: string, pat: seq<Tok>, i: nat): (r: Option<(nat, seq<string>)>)
    requires i <= |s|
    ensures r.Some? ==> i <= r.value.0 <= |s| && MatchAt(s[r.value.0..], pat) == Some(r.value.1)
    decreases |s| - i
  {
    match MatchAt(s[i..], pat)
    case Some(gs) => Some((i, gs))
    case None => if i == |s| then None else Search(s, pat, i + 1)
  }

  /** The search finds the leftmost match: the pattern matches at no earlier
      position, and when nothing is found it matches nowhere from `i` on. */
  lemma {:induction false} SearchLeftmost(s: string, pat: seq<Tok>, i: nat)
    requires i <= |s|
    ensures Search(s, pat, i).Some? ==> forall q :: i <= q < Search(s, pat, i).value.0 ==> NoMatchAt(s, pat, q)
    ensures Search(s, pat, i).None? ==> forall q :: i <= q <= |s| ==> NoMatchAt(s, pat, q)
    decreases |s| - i
  {
    if MatchAt(s[i..], pat).None? && i < |s| {
      SearchLeftmost(s, pat, i + 1);
    }
  }

  /** The exception Python raises on `re.search(...).group(n)` when nothing matched. */
  const NoMatch: string := "AttributeError: 'NoneType' object has no attribute 'group'"

  lemma {:induction false} GroupsCount(s: string, pat: seq<Tok>)
    requires MatchAt(s, pat).Some?
    ensures |MatchAt(s, pat).value| == Runs(pat)
  {
    MatchSpells(s, pat);
    GroupsFitCount(pat, MatchAt(s, pat).value);
  }

  /** `re.search(pat, s).group(n)`, counting groups from 1. */
  function Group(s: string, pat: seq<Tok>, n: nat): (r: Result<string>)
    requires 1 <= n <= Runs(pat)
    ensures r.Crash? <==> NoMatchIn(s, pat)
  {
    SearchLeftmost(s, pat, 0);
    match Search(s, pat, 0)
    case None => Crash(NoMatch)
    case Some((p, gs)) =>
      assert !NoMatchAt(s, pat, p);
      GroupsCount(s[p..], pat);
      Ok(gs[n - 1])
  }

  /** Text that starts with the pattern spelled out yields those groups. */
  lemma GroupOfSpelled(pat: seq<Tok>, gs: seq<string>, rest: string, n: nat)
    requires WellFormed(pat) && GroupsFit(pat, gs) && Maximal(rest, pat) && 1 <= n <= Runs(pat)
    ensures |gs| == Runs(pat)
    ensures Group(Spell(pat, gs) + rest, pat, n) == Ok(gs[n - 1])
  {
    GroupsFitCount(pat, gs);
    var s := Spell(pat, gs) + rest;
    SpellMatches(pat, gs, rest);
    assert s[0..] == s;
  }

  /** `re.search(pat, s).groups()`. */
  function Groups(s: string, pat: seq<Tok>): (r: Result<seq<string>>)
    ensures r.Crash? <==> NoMatchIn(s, pat)
    ensures r.Crash? ==> r.message == NoMatch
    ensures r.Ok? ==> |r.value| == Runs(pat)
    ensures forall n :: r.Ok? && 1 <= n <= Runs(pat) ==> Group(s, pat, n) == Ok(r.value[n - 1])
  {
    SearchLeftmost(s, pat, 0);
    match Search(s, pat, 0)
    case None => Crash(NoMatch)
    case Some((p, gs)) =>
      assert !NoMatchAt(s, pat, p);
      GroupsCount(s[p..], pat);
      Ok(gs)
  }

  lemma GroupsOfSpelled(pat: seq<Tok>, gs: seq<string>, rest: string)
    requires WellFormed(pat) && GroupsFit(pat, gs) && Maximal(rest, pat)
    ensures Groups(Spell(pat, gs) + rest, pat) == Ok(gs)
  {
    var s := Spell(pat, gs) + rest;
    SpellMatches(pat, gs, rest);
    assert s[0..] == s;
  }

  /** Every run of `pat` is of class `c`. */
  predicate RunsOf(pat: seq<Tok>, c: CharClass) {
    forall k :: 0 <= k < |pat| && pat[k].Run? ==> pat[k].cls == c
  }

  /** A literal in front keeps a pattern well formed, with the same runs. */
  lemma ConsLit(t: string, pat: seq<Tok>, c: CharClass)
    requires WellFormed(pat) && RunsOf(pat, c)
    ensures WellFormed([Lit(t)] + pat) && RunsOf([Lit(t)] + pat, c) && Runs([Lit(t)] + pat) == Runs(pat)
  {
    var q := [Lit(t)] + pat;
    assert q[1..] == pat;
    forall k | 1 <= k < |q| ensures q[k] == pat[k - 1] {}
  }

  /** A run in front of nothing, or of a literal that cannot continue it, keeps
      a pattern well formed, with one more run. */
  lemma ConsRun(c: CharClass, pat: seq<Tok>)
    requires WellFormed(pat) && RunsOf(pat, c)
    requires pat == [] || (pat[0].Lit? && pat[0].text != [] && !InClass(pat[0].text[0], c))
    ensures WellFormed([Run(c)] + pat) && RunsOf([Run(c)] + pat, c) && Runs([Run(c)] + pat) == Runs(pat) + 1
  {
    var q := [Run(c)] + pat;
    assert q[1..] == pat;
    forall k | 1 <= k < |q| ensures q[k] == pat[k - 1] {}
  }

  lemma {:induction false} GroupsFitClass(pat: seq<Tok>, gs: seq<string>, c: CharClass)
    requires GroupsFit(pat, gs) && RunsOf(pat, c)
    ensures forall i :: 0 <= i < |gs| ==> gs[i] != [] && AllInClass(gs[i], c)
    decreases |pat|
  {
    if pat != [] {
      assert RunsOf(pat[1..], c) by {
        forall k | 0 <= k < |pat[1..]| && pat[1..][k].Run? ensures pat[1..][k].cls == c {
          assert pat[1..][k] == pat[k + 1];
        }
      }
      if pat[0].Lit? {
        GroupsFitClass(pat[1..], gs, c);
      } else {
        GroupsFitClass(pat[1..], gs[1..], c);
        assert forall i :: 1 <= i < |gs| ==> gs[i] == gs[1..][i - 1];
      }
    }
  }

  /** The groups found are non-empty runs of their pattern's class. */
  lemma GroupsFound(s: string, pat: seq<Tok>, c: CharClass)
    requires Groups(s, pat).Ok? && RunsOf(pat, c)
    ensures forall i :: 0 <= i < |Groups(s, pat).value| ==>
              Groups(s, pat).value[i] != [] && AllInClass(Groups(s, pat).value[i], c)
  {
    var r := Search(s, pat, 0).value;
    MatchSpells(s[r.0..], pat);
    GroupsFitClass(pat, r.1, c);
  }

  function Shifted(n: nat, m: Option<(nat, seq<string>)>): Option<(nat, seq<string>)> {
    match m
    case None => None
    case Some((p, gs)) => Some((n + p, gs))
  }

  /** One step of the leftmost search, as a lemma. */
  lemma SearchStep(s: string, pat: seq<Tok>, i: nat)
    requires i <= |s|
    ensures MatchAt(s[i..], pat).Some? ==> Search(s, pat, i) == Some((i, MatchAt(s[i..], pat).value))
    ensures MatchAt(s[i..], pat).None? && i < |s| ==> Search(s, pat, i) == Search(s, pat, i + 1)
    ensures MatchAt(s[i..], pat).None? && i == |s| ==> Search(s, pat, i) == None
  {
  }

  /** The search in a string whose tail from `d` on is `s` finds what the search
      in `s` finds, `d` places later. */
  lemma {:induction false} SearchAligned(t: string, s: string, pat: seq<Tok>, d: nat, i: nat)
    requires i <= |s| && |t| == d + |s| && t[d..] == s
    ensures Search(t, pat, d + i) == Shifted(d, Search(s, pat, i))
    decreases |s| - i
  {
    assert t[d + i..] == s[i..];
    if MatchAt(s[i..], pat).Some? || i == |s| {
      AlignedHere(t, s, pat, d, i);
    } else {
      SearchAligned(t, s, pat, d, i + 1);
      AlignedMiss(t, s, pat, d, i);
    }
  }

  lemma AlignedHere(t: string, s: string, pat: seq<Tok>, d: nat, i: nat)
    requires i <= |s| && |t| == d + |s| && t[d + i..] == s[i..]
    requires MatchAt(s[i..], pat).Some? || i == |s|
    ensures Search(t, pat, d + i) == Shifted(d, Search(s, pat, i))
  {
    SearchStep(s, pat, i);
    SearchStep(t, pat, d + i);
  }

  lemma AlignedMiss(t: string, s: string, pat: seq<Tok>, d: nat, i: nat)
    requires i < |s| && |t| == d + |s| && t[d + i..] == s[i..]
    requires MatchAt(s[i..], pat).None?
    requires Search(t, pat, d + i + 1) == Shifted(d, Search(s, pat, i + 1))
    ensures Search(t, pat, d + i) == Shifted(d, Search(s, pat, i))
  {
    SearchStep(s, pat, i);
    SearchStep(t, pat, d + i);
  }

  lemma SearchShift(pre: string, s: string, pat: seq<Tok>, i: nat)
    requires i <= |s|
    ensures Search(pre + s, pat, |pre| + i) == Shifted(|pre|, Search(s, pat, i))
  {
    assert (pre + s)[|pre|..] == s;
    SearchAligned(pre + s, s, pat, |pre|, i);
  }

  lemma {:induction false} SearchSkip(pre: string, s: string, pat: seq<Tok>, i: nat)
    requires pat != [] && pat[0].Lit? && pat[0].text != [] && pat[0].text[0] !in pre
    requires i <= |pre|
    ensures Search(pre + s, pat, i) == Search(pre + s, pat, |pre|)
    decreases |pre| - i
  {
    if i < |pre| {
      var x := (pre + s)[i..];
      var t := pat[0].text;
      assert x[0] == pre[i];
      assert |t| <= |x| ==> x[..|t|][0] == x[0];
      SearchSkip(pre, s, pat, i + 1);
    }
  }

  /** Text in front that lacks the pattern's first character changes nothing. */
  lemma GroupsAfter(pre: string, s: string, pat: seq<Tok>)
    requires pat != [] && pat[0].Lit? && pat[0].text != [] && pat[0].text[0] !in pre
    ensures Groups(pre + s, pat) == Groups(s, pat)
  {
    SearchSkip(pre, s, pat, 0);
    SearchShift(pre, s, pat, 0);
  }

  // ---------------------------------------------------------------------------
  // `launching (\d+).(\d+) on host`: here `.` may itself be a digit, so the first
  // group is the longest digit run after which the rest of the pattern still
  // matches, which the regular-expression engine finds by backtracking.

  const Launching: string := "launching "

  /** `(\d+) on host`, what must follow the `.`. */
  const HostTail: seq<Tok> := [Run(Digits), Lit(" on host")]

  /** The pattern matches at the start of `x` with its first group `x[10..k]`
      and `.` at `k`. */
  predicate LaunchHere(x: string, k: nat) {
    && 10 < k < |x|
    && StartsWith(x, Launching)
    && AllInClass(x[10..k], Digits)
    && x[k] != '\n'
    && MatchAt(x[k + 1..], HostTail).Some?
  }

  lemma LaunchBelowRun(x: string)
    requires 10 <= |x|
    ensures forall k: nat :: LaunchHere(x, k) ==> k <= RunEnd(x, 10, Digits)
  {
    var e := RunEnd(x, 10, Digits);
    forall k: nat | LaunchHere(x, k) ensures k <= e {
      forall m | 10 <= m < k ensures InClass(x[m], Digits) {
        assert x[10..k][m - 10] == x[m];
      }
    }
  }

  /** The largest split point `k <= j` at which the pattern matches. */
  function LaunchSplit(x: string, j: nat): (r: Option<nat>)
    ensures r.Some? ==> r.value <= j && LaunchHere(x, r.value)
    ensures forall k: nat :: (r.Some? ==> r.value < k) && k <= j ==> !LaunchHere(x, k)
    decreases j
  {
    if j <= 10 then None
    else if LaunchHere(x, j) then Some(j)
    else LaunchSplit(x, j - 1)
  }

  /** The first group when the pattern matches at the start of `x`. */
  function LaunchGroupHere(x: string): (r: Option<string>)
    ensures r.Some? ==> r.value != [] && AllInClass(r.value, Digits)
  {
    if !StartsWith(x, Launching) then None
    else
      match LaunchSplit(x, RunEnd(x, 10, Digits))
      case None => None
      case Some(k) => Some(x[10..k])
  }

  /** The group is there exactly when the pattern matches, and it is the
      longest first group with which the pattern matches. */
  lemma LaunchGroupHereSpec(x: string)
    ensures LaunchGroupHere(x).Some? <==> exists k: nat :: LaunchHere(x, k)
    ensures LaunchGroupHere(x).Some? ==>
              exists k: nat :: LaunchHere(x, k) && LaunchGroupHere(x).value == x[10..k]
                               && forall k': nat :: LaunchHere(x, k') ==> k' <= k
  {
    if StartsWith(x, Launching) {
      LaunchBelowRun(x);
    }
  }

  /** The leftmost match at or after `i`. */
  function LaunchSearch(s: string, i: nat): (r: Option<string>)
    requires i <= |s|
    ensures r.Some? ==> r.value != [] && AllInClass(r.value, Digits)
    decreases |s| - i
  {
    match LaunchGroupHere(s[i..])
    case Some(g) => Some(g)
    case None => if i == |s| then None else LaunchSearch(s, i + 1)
  }

  lemma LaunchSearchStep(s: string, i: nat)
    requires i <= |s|
    ensures LaunchGroupHere(s[i..]).Some? ==> LaunchSearch(s, i) == LaunchGroupHere(s[i..])
    ensures LaunchGroupHere(s[i..]).None? && i < |s| ==> LaunchSearch(s, i) == LaunchSearch(s, i + 1)
    ensures LaunchGroupHere(s[i..]).None? && i == |s| ==> LaunchSearch(s, i) == None
  {
  }

  /** The pattern does not match at the start of `s[q..]`. */
  predicate NoLaunchAt(s: string, q: nat)
    requires q <= |s|
  {
    LaunchGroupHere(s[q..]).None?
  }

  lemma NoLaunchFromStep(s: string, i: nat)
    requires i < |s|
    ensures (forall q :: i <= q <= |s| ==> NoLaunchAt(s, q)) <==>
      NoLaunchAt(s, i) && forall q :: i + 1 <= q <= |s| ==> NoLaunchAt(s, q)
  {
  }

  /** The search finds nothing exactly when the pattern matches nowhere. */
  lemma {:induction false} LaunchSearchNone(s: string, i: nat)
    requires i <= |s|
    ensures LaunchSearch(s, i).None? <==> forall q :: i <= q <= |s| ==> NoLaunchAt(s, q)
    decreases |s| - i
  {
    if i < |s| {
      assert LaunchSearch(s, i).None? <==> NoLaunchAt(s, i) && LaunchSearch(s, i + 1).None? by {
        LaunchSearchStep(s, i);
      }
      LaunchSearchNone(s, i + 1);
      NoLaunchFromStep(s, i);
    } else {
      LaunchSearchStep(s, i);
    }
  }

  /** `re.search(r'launching (\d+).(\d+) on host', err).group(1)`. */
  function LaunchGroup(err: string): (r: Result<string>)
    ensures r.Crash? <==> forall i, k: nat :: 0 <= i <= |err| ==> !LaunchHere(err[i..], k)
    ensures r.Crash? ==> r.message == NoMatch
    ensures r.Ok? ==> r.value != [] && AllInClass(r.value, Digits)
  {
    LaunchSearchNone(err, 0);
    forall i | 0 <= i <= |err| ensures !NoLaunchAt(err, i) <==> exists k: nat :: LaunchHere(err[i..], k) {
      LaunchGroupHereSpec(err[i..]);
    }
    match LaunchSearch(err, 0)
    case None => Crash(NoMatch)
    case Some(g) => Ok(g)
  }

  lemma HostTailSpelled(d: string, rest: string)
    requires d != [] && AllInClass(d, Digits)
    ensures MatchAt(d + " on host" + rest, HostTail).Some?
  {
    assert Spell(HostTail, [d]) == d + " on host";
    SpellMatches(HostTail, [d], rest);
  }

  lemma HostTailNoDigit(s: string)
    requires s == [] || !IsDigit(s[0])
    ensures MatchAt(s, HostTail).None?
  {
    assert RunEnd(s, 0, Digits) == 0;
  }

  /** The usual `srun -v` line: job and step numbers around a non-digit. */
  lemma LaunchOfStep(d1: string, c: char, d2: string, rest: string)
    requires d1 != [] && AllInClass(d1, Digits) && d2 != [] && AllInClass(d2, Digits)
    requires !IsDigit(c) && c != '\n'
    ensures LaunchGroup(Launching + d1 + [c] + d2 + " on host" + rest) == Ok(d1)
  {
    var s := Launching + d1 + [c] + d2 + " on host" + rest;
    var j := 10 + |d1|;
    assert s[..10] == Launching && s[10..j] == d1 && s[j] == c;
    assert s[j..] == [c] + (d2 + " on host" + rest);
    RunThenLiteral(s, 10, Digits, [c], j);
    assert s[j + 1..] == d2 + " on host" + rest;
    HostTailSpelled(d2, rest);
    assert LaunchHere(s, j);
    assert s[0..] == s;
    assert LaunchGroupHere(s) == Some(d1);
  }

  lemma LaunchSlices(s: string, d: string, rest: string)
    requires s == Launching + d + " on host" + rest
    ensures |s| == 18 + |d| + |rest|
    ensures s[..10] == Launching && s[10..10 + |d|] == d && s[10 + |d|..] == " on host" + rest
  {
  }

  lemma LaunchPastRun(s: string, d: string, rest: string)
    requires |d| >= 3 && AllInClass(d, Digits) && s == Launching + d + " on host" + rest
    ensures RunEnd(s, 10, Digits) == 10 + |d| && !LaunchHere(s, 10 + |d|) && !LaunchHere(s, 9 + |d|)
  {
    var e := 10 + |d|;
    LaunchSlices(s, d, rest);
    assert RunEnd(s, 10, Digits) == e by {
      RunThenLiteral(s, 10, Digits, " ", e);
    }
    assert s[e + 1..] == "on host" + rest;
    HostTailNoDigit(s[e + 1..]);
    HostTailNoDigit(s[e..]);
  }

  lemma LaunchBeforeLastTwo(s: string, d: string, rest: string)
    requires |d| >= 3 && AllInClass(d, Digits) && s == Launching + d + " on host" + rest
    ensures LaunchHere(s, 8 + |d|) && s[10..8 + |d|] == d[..|d| - 2]
  {
    var e := 10 + |d|;
    LaunchSlices(s, d, rest);
    assert s[10..e - 2] == d[..|d| - 2];
    assert s[e - 1..] == [d[|d| - 1]] + " on host" + rest;
    HostTailSpelled([d[|d| - 1]], rest);
    assert s[e - 2] == d[|d| - 2];
  }

  /** The three split points a job number without a step number leaves. */
  lemma LaunchWithoutStepSplits(d: string, rest: string)
    requires |d| >= 3 && AllInClass(d, Digits)
    ensures var s := Launching + d + " on host" + rest;
            var e := 10 + |d|;
            RunEnd(s, 10, Digits) == e && !LaunchHere(s, e) && !LaunchHere(s, e - 1)
            && LaunchHere(s, e - 2) && s[10..e - 2] == d[..|d| - 2]
  {
    var s := Launching + d + " on host" + rest;
    LaunchPastRun(s, d, rest);
    LaunchBeforeLastTwo(s, d, rest);
  }

  /** Without a step number the search still succeeds, by backtracking: the
      last two digits of the job number become `.` and the second group. */
  lemma LaunchWithoutStep(d: string, rest: string)
    requires |d| >= 3 && AllInClass(d, Digits)
    ensures LaunchGroup(Launching + d + " on host" + rest) == Ok(d[..|d| - 2])
  {
    var s := Launching + d + " on host" + rest;
    var e := 10 + |d|;
    LaunchWithoutStepSplits(d, rest);
    assert s[0..] == s;
    assert LaunchSplit(s, e) == Some(e - 2);
    assert LaunchGroupHere(s) == Some(d[..|d| - 2]);
  }

  lemma {:induction false} LaunchSearchShift(pre: string, s: string, i: nat)
    requires i <= |s|
    ensures LaunchSearch(pre + s, |pre| + i) == LaunchSearch(s, i)
    decreases |s| - i
  {
    assert (pre + s)[|pre| + i..] == s[i..];
    LaunchSearchStep(s, i);
    LaunchSearchStep(pre + s, |pre| + i);
    if LaunchGroupHere(s[i..]).None? && i < |s| {
      LaunchSearchShift(pre, s, i + 1);
    }
  }

  lemma {:induction false} LaunchSearchSkip(pre: string, s: string, i: nat)
    requires 'l' !in pre && i <= |pre|
    ensures LaunchSearch(pre + s, i) == LaunchSearch(pre + s, |pre|)
    decreases |pre| - i
  {
    if i < |pre| {
      var x := (pre + s)[i..];
      assert x[0] == pre[i];
      assert |Launching| <= |x| ==> x[..|Launching|][0] == x[0];
      LaunchSearchStep(pre + s, i);
      LaunchSearchSkip(pre, s, i + 1);
    }
  }

  /** Text in front without an `l`, such as the `srun: ` prefix, changes nothing. */
  lemma LaunchAfter(pre: string, s: string)
    requires 'l' !in pre
    ensures LaunchGroup(pre + s) == LaunchGroup(s)
  {
    LaunchSearchSkip(pre, s, 0);
    LaunchSearchShift(pre, s, 0);
  }
}
