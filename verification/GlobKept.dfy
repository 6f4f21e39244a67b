/** mg_match loses a match when a * that cannot take a slash has replaced a wildcard that could. */
module GlobKept {
  import opened Glob

  // What a * at place k is followed by, up to the next wildcard, holds a ?.
  predicate AsksBehind(p: string, k: nat)
    requires k < |p|
  {
    exists n :: k < n < RunEnd(p, k + 1) && p[n] == '?'
  }

  // At k or before it there is a wildcard whose choices can put a slash behind it.
  predicate Crossed(p: string, k: nat)
    requires k < |p|
  {
    exists m :: 0 <= m <= k && (p[m] == '#' || (p[m] == '*' && AsksBehind(p, m)))
  }

  // The walk is never stuck at a slash behind this *.
  predicate Passable(p: string, k: nat)
    requires k < |p|
  {
    RunEnd(p, k + 1) < |p| && forall n :: k < n < RunEnd(p, k + 1) ==> p[n] == '/' || p[n] == '?'
  }

  predicate GoodStars(p: string) {
    forall k :: 0 <= k < |p| && p[k] == '*' && Crossed(p, k) ==> Passable(p, k)
  }

  /// Before the first such wildcard: what the last * took, and could have taken.

  predicate Literal(p: string, a: nat, b: nat)
    requires b <= |p|
  {
    forall k :: a <= k < b ==> !Wild(p[k]) && p[k] != '?'
  }

  // The last wildcard is a * behind which only literals have been passed, each by itself.
  predicate Passed(p: string, s: string, st: State) {
    && Inv(p, s, st)
    && (st.nj > 0 ==> p[st.ni] == '*' && !Crossed(p, st.ni) && Literal(p, st.ni + 1, st.i)
                      && (st.i > st.ni ==> p[st.ni + 1..st.i] == s[st.nj - 1..st.j]))
  }

  // What is left can still be matched, from here or with the last * taking one more.
  predicate StillMatches(p: string, s: string, st: State)
    requires Inv(p, s, st)
  {
    || Matches(p[st.i..], s[st.j..])
    || (0 < st.nj <= |s| && s[st.nj - 1] != '/' && Matches(p[st.ni..], s[st.nj..]))
  }

  // Literals stand for themselves.
  lemma {:induction false} LiteralMatches(p: string, n: nat, s: string)
    requires n <= |p| && Matches(p, s) && Literal(p, 0, n)
    ensures n <= |s| && s[..n] == p[..n] && Matches(p[n..], s[n..])
    decreases n
  {
    if n > 0 {
      assert forall k :: 0 <= k < n - 1 ==> p[1..][k] == p[k + 1];
      LiteralMatches(p[1..], n - 1, s[1..]);
      assert p[1..][n - 1..] == p[n..] && s[1..][n - 1..] == s[n..];
      assert s[..n] == [s[0]] + s[1..][..n - 1] && p[..n] == [p[0]] + p[1..][..n - 1];
    } else {
      assert p[0..] == p && s[0..] == s;
    }
  }

  lemma SliceTake(s: string, a: nat, b: nat, k: nat)
    requires a <= b <= |s| && k <= b - a
    ensures s[a..b][..k] == s[a..a + k]
  {
  }

  // The same text at two places: without a slash between the places there is none in it.
  lemma {:induction false} Repeats(s: string, base: nat, at: nat, t: nat)
    requires base < at && at + t <= |s| && s[base..base + t] == s[at..at + t] && NoSlash(s[base..at])
    ensures NoSlash(s[base..at + t])
    decreases t
  {
    if t > 0 {
      var u, v := s[base..base + t], s[at..at + t];
      SliceTake(s, base, base + t, t - 1);
      SliceTake(s, at, at + t, t - 1);
      Repeats(s, base, at, t - 1);
      var x := s[base..at + t - 1];
      assert s[at + t - 1] == v[t - 1] == u[t - 1] == s[base + t - 1] == x[t - 1];
      assert s[base..at + t] == x + [s[at + t - 1]];
    }
  }

  // A run that stands at `base` and could stand further on, with no slash between.
  lemma RunTwice(q: string, t: nat, s: string, base: nat, at: nat)
    requires t <= |q| && base < at <= |s| && base + t <= |s| && s[base..base + t] == q[..t] && Literal(q, 0, t)
    requires NoSlash(s[base..at]) && Matches(q, s[at..])
    ensures at + t <= |s| && NoSlash(s[base..at + t]) && Matches(q[t..], s[at + t..])
  {
    hide Matches, NoSlash, Literal;
    LiteralMatches(q, t, s[at..]);
    SliceOfRest(s, at, t);
    Repeats(s, base, at, t);
  }

  lemma NoSlashLonger(s: string, a: nat, b: nat)
    requires a < b <= |s| && s[a] != '/' && NoSlash(s[a + 1..b])
    ensures NoSlash(s[a..b])
  {
    assert s[a..b] == [s[a]] + s[a + 1..b];
  }

  lemma LiteralOnes(p: string, from: nat, t: nat)
    requires from + t <= |p| && Literal(p, from, from + t)
    ensures Literal(p[from..], 0, t)
  {
    assert forall i :: 0 <= i < t ==> p[from..][i] == p[from + i];
  }

  // Had the last * taken more, up to d behind where the subject goes on, there would be no slash there.
  lemma TookMore(p: string, s: string, ni: nat, i: nat, nj: nat, j: nat) returns (d: nat)
    requires ni < i <= |p| && 0 < nj <= |s| && j <= |s| && j + 2 == nj + i - ni
    requires p[ni] == '*' && Literal(p, ni + 1, i) && p[ni + 1..i] == s[nj - 1..j]
    requires s[nj - 1] != '/' && Matches(p[ni..], s[nj..])
    ensures d > 0 && j + d <= |s| && NoSlash(s[nj - 1..j + d]) && Matches(p[i..], s[j + d..])
  {
    hide Matches, NoSlash, Literal;
    assert p[ni..][1..] == p[ni + 1..];
    var k := StarTook(p[ni..], s[nj..]);
    SliceOfRest(s, nj, k);
    NoSlashLonger(s, nj - 1, nj + k);
    var q, t := p[ni + 1..], i - ni - 1;
    SliceOfRest(p, ni + 1, t);
    LiteralOnes(p, ni + 1, t);
    RunTwice(q, t, s, nj - 1, nj + k);
    d := k + 1;
  }

  lemma SliceNoSlash(s: string, a: nat, b: nat, c: nat)
    requires a <= b <= c <= |s| && NoSlash(s[a..c])
    ensures NoSlash(s[b..c])
  {
    forall k | 0 <= k < c - b
      ensures s[b..c][k] != '/'
    {
      assert s[a..c][b - a + k] == s[b + k];
    }
  }

  // At a * the earlier one is no longer needed: this one can take what it would have taken.
  lemma EarlierStar(p: string, s: string, st: State)
    requires Passed(p, s, st) && st.i < |p| && p[st.i] == '*'
    requires 0 < st.nj <= |s| && s[st.nj - 1] != '/' && Matches(p[st.ni..], s[st.nj..])
    ensures Matches(p[st.i..], s[st.j..])
  {
    hide Matches, Crossed, Literal, NoSlash;
    var State(i, j, ni, nj) := st;
    if ni < i {
      var d := TookMore(p, s, ni, i, nj, j);
      SliceNoSlash(s, nj - 1, j, j + d);
      SliceOfRest(s, j, d);
      assert p[i..][0] == '*';
      StarTakes(p[i..], s[j..], d);
    }
  }

  // A slash, or the end of the subject, where the text behind * breaks off: taking more is no help.
  lemma GivenUp(p: string, s: string, st: State)
    requires Passed(p, s, st) && !Matches(p[st.i..], s[st.j..]) && !(st.i < |p| && p[st.i] == '*')
    requires 0 < st.nj <= |s| && st.j < |s| ==> s[st.j] == '/'
    ensures !StillMatches(p, s, st)
  {
    hide Matches, Crossed, Literal;
    var State(i, j, ni, nj) := st;
    if 0 < nj <= |s| && s[nj - 1] != '/' && Matches(p[ni..], s[nj..]) {
      var d := TookMore(p, s, ni, i, nj, j);
      NoSlashIn(s, nj - 1, j, j + d);
    }
  }

  lemma OneMore(p: string, s: string, a: nat, i: nat, b: nat, j: nat)
    requires a <= i < |p| && b <= j < |s| && p[a..i] == s[b..j] && p[i] == s[j]
    ensures p[a..i + 1] == s[b..j + 1]
  {
    assert p[a..i + 1] == p[a..i] + [p[i]] && s[b..j + 1] == s[b..j] + [s[j]];
  }

  // Behind a * that is not crossed there is no ? before the next wildcard.
  lemma NoQuestion(p: string, ni: nat, i: nat)
    requires ni < i < |p| && p[ni] == '*' && !Crossed(p, ni) && Literal(p, ni + 1, i) && !Wild(p[i])
    ensures p[i] != '?'
  {
    RunReaches(p, ni + 1, i);
    assert !AsksBehind(p, ni);
  }

  lemma PlainStep(p: string, s: string, st: State)
    requires Apart(p, s) && Passed(p, s, st)
    requires st.i < |p| && st.j < |s| && (p[st.i] == '?' || s[st.j] == p[st.i])
    ensures var next := State(st.i + 1, st.j + 1, st.ni, st.nj);
            Passed(p, s, next) && (StillMatches(p, s, st) <==> StillMatches(p, s, next))
  {
    hide Matches, Crossed;
    var State(i, j, ni, nj) := st;
    assert s[j] in s && p[i] in p;
    MatchesAt(p, s, i, j);
    if nj > 0 && ni < i {
      NoQuestion(p, ni, i);
      OneMore(p, s, ni + 1, i, nj - 1, j);
    }
  }

  lemma StarStep(p: string, s: string, st: State)
    requires Passed(p, s, st) && st.i < |p| && p[st.i] == '*' && !Crossed(p, st.i)
    ensures var next := State(st.i + 1, st.j, st.i, st.j + 1);
            Passed(p, s, next) && (StillMatches(p, s, st) <==> StillMatches(p, s, next))
  {
    hide Matches, Crossed;
    var State(i, j, ni, nj) := st;
    MatchesAt(p, s, i, j);
    if 0 < nj <= |s| && s[nj - 1] != '/' && Matches(p[ni..], s[nj..]) { EarlierStar(p, s, st); }
  }

  // The state before the first crossing wildcard keeps what can still be matched.
  lemma EarlyStep(p: string, s: string, beyond: char, st: State)
    requires Apart(p, s) && Passed(p, s, st) && StillMatches(p, s, st)
    ensures Step(p, s, beyond, st) != Reject
    ensures Step(p, s, beyond, st).Go? && !(st.i < |p| && Wild(p[st.i]) && Crossed(p, st.i)) ==>
              var next := Step(p, s, beyond, st).next; Passed(p, s, next) && StillMatches(p, s, next)
  {
    hide Matches, Crossed, Apart;
    var State(i, j, ni, nj) := st;
    if i < |p| && j < |s| && (p[i] == '?' || s[j] == p[i]) {
      PlainStep(p, s, st);
    } else if i < |p| && Wild(p[i]) {
      if !Crossed(p, i) {
        HashCrosses(p, i);
        StarStep(p, s, st);
      }
    } else if !(i == |p| && j == |s|) {
      MatchesAt(p, s, i, j);
      if !(0 < nj <= |s| && (if j < |s| then s[j] else beyond) != '/') { GivenUp(p, s, st); }
    }
  }

  lemma HashCrosses(p: string, i: nat)
    requires i < |p| && !Crossed(p, i)
    ensures p[i] != '#'
  {
  }

  /// From there on: nothing is lost with * taken for # where the walk is never stuck at a slash.

  lemma StaysCrossed(p: string, a: nat, b: nat)
    requires a <= b < |p| && Crossed(p, a)
    ensures Crossed(p, b)
  {
    var m :| 0 <= m <= a && (p[m] == '#' || (p[m] == '*' && AsksBehind(p, m)));
  }

  lemma StillAhead(p: string, s: string, st: State)
    requires Inv(p, s, st) && StillMatches(p, s, st)
    ensures Ahead(p, s, st)
  {
    hide Matches, Fits;
    MatchesFits(p[st.i..], s[st.j..]);
    if 0 < st.nj <= |s| { MatchesFits(p[st.ni..], s[st.nj..]); }
  }

  lemma GivenUpLate(p: string, s: string, beyond: char, st: State)
    requires GoodStars(p) && Inv(p, s, st) && st.nj > 0 && Crossed(p, st.ni) && Step(p, s, beyond, st) == Reject
    ensures !Ahead(p, s, st)
  {
    hide Fits, Crossed, RunEnd;
    var State(i, j, ni, nj) := st;
    UnfoldAt(p, s, i, j);
    if p[ni] == '*' {
      assert Passable(p, ni);
      RunReaches(p, ni + 1, i);
      assert j == |s|;
    }
    if nj <= |s| && Fits(p[ni..], s[nj..]) {
      assert forall k :: 0 < k < i - ni ==> !Wild(p[ni..][k]);
      var k := WildRun(p[ni..], i - ni, s[nj..]);
    }
  }

  // What the walk has to keep.
  predicate Kept(p: string, s: string, st: State) {
    && Inv(p, s, st)
    && if st.nj > 0 && Crossed(p, st.ni) then Ahead(p, s, st) else Passed(p, s, st) && StillMatches(p, s, st)
  }

  lemma KeptStep(p: string, s: string, beyond: char, st: State)
    requires GoodStars(p) && Apart(p, s) && Kept(p, s, st)
    ensures Step(p, s, beyond, st) != Reject
    ensures Step(p, s, beyond, st).Go? ==> Kept(p, s, Step(p, s, beyond, st).next)
  {
    hide GoodStars, Apart, Crossed, Ahead, StillMatches, Matches, Fits;
    var State(i, j, ni, nj) := st;
    if nj > 0 && Crossed(p, ni) {
      if Step(p, s, beyond, st) == Reject {
        GivenUpLate(p, s, beyond, st);
      } else if Step(p, s, beyond, st).Go? {
        StepLosesNothing(p, s, beyond, st);
        if i < |p| && ni <= i { StaysCrossed(p, ni, i); }
      }
    } else {
      EarlyStep(p, s, beyond, st);
      if Step(p, s, beyond, st).Go? && i < |p| && Wild(p[i]) && Crossed(p, i) {
        StillAhead(p, s, st);
        StepLosesNothing(p, s, beyond, st);
        PassesNoWildcard(p, s, beyond, st);
      }
    }
  }

  lemma PassesNoWildcard(p: string, s: string, beyond: char, st: State)
    requires Apart(p, s) && InRange(p, s, st) && st.i < |p| && Wild(p[st.i])
    ensures Step(p, s, beyond, st) == Go(State(st.i + 1, st.j, st.i, st.j + 1))
  {
    if st.j < |s| { assert p[st.i] in p && s[st.j] in s; }
  }

  lemma {:induction false} KeptRuns(p: string, s: string, beyond: char, st: State)
    requires GoodStars(p) && Running(p, s, st) && Kept(p, s, st)
    ensures Run(p, s, beyond, st)
    decreases |s| + 1 - Reach(st), |p| - st.i + |s| - st.j
  {
    hide GoodStars, Apart, Kept, Reach;
    KeptStep(p, s, beyond, st);
    match Step(p, s, beyond, st)
    case Accept =>
    case Go(next) =>
      StepKeepsInv(p, s, beyond, st);
      KeptRuns(p, s, beyond, next);
  }

  predicate LosesNothing(p: string, s: string, beyond: char) {
    Apart(p, s) && Matches(p, s) ==> Run(p, s, beyond, Start())
  }

  // For every pattern: no match is lost if each * behind a # (or behind a * with a ? to follow, which can
  // put a slash behind it too) is followed by nothing but slashes and ? up to one more wildcard.
  lemma NothingLost(p: string, s: string, beyond: char)
    requires GoodStars(p)
    ensures LosesNothing(p, s, beyond)
  {
    hide Run, Matches, GoodStars, Apart;
    if Apart(p, s) && Matches(p, s) {
      assert p[0..] == p && s[0..] == s;
      KeptRuns(p, s, beyond, Start());
    }
  }

  /// Otherwise: a subject that takes the walk past the # and lets it stick at a slash.

  function Losing(p: string, m: nat, e: nat): string
    requires m < e <= |p|
  {
    Fill(p[..e]) + ("/" + Fill(p[m + 1..]))
  }

  // A # at m, and a * at k behind which the walk gets stuck at e: the end, or no slash.
  predicate Sticks(p: string, m: nat, k: nat, e: nat) {
    && m < k < e <= |p| && p[m] == '#' && p[k] == '*' && (forall n :: k < n < e ==> !Wild(p[n]))
    && (e < |p| ==> !Wild(p[e]) && p[e] != '?' && p[e] != '/')
  }

  lemma LosingApart(p: string, m: nat, e: nat)
    requires m < e <= |p|
    ensures Apart(p, Losing(p, m, e))
  {
    FillIsPlain(p[..e]);
    FillIsPlain(p[m + 1..]);
  }

  lemma LosingMatches(p: string, m: nat, e: nat)
    requires m < e <= |p| && p[m] == '#'
    ensures Matches(p, Losing(p, m, e))
  {
    hide Matches, Fill;
    var rest := p[m + 1..];
    var taken := Fill(p[m + 1..e]) + "/";
    FillMatches(p[..m]);
    FillMatches(rest);
    assert p[m..][0] == '#' && p[m..][1..] == rest && (taken + Fill(rest))[|taken|..] == Fill(rest);
    HashGives(p[m..], taken, Fill(rest));
    MatchesConcat(p[..m], p[m..], Fill(p[..m]), taken + Fill(rest));
    assert p[..m] + p[m..] == p && p[..e] == p[..m] + (p[m..m + 1] + p[m + 1..e]) && p[m..m + 1] == "#";
    FillConcat(p[..m], "#" + p[m + 1..e]);
    FillConcat("#", p[m + 1..e]);
    assert Fill("#") == "" by { FillHash(); }
    assert Losing(p, m, e) == Fill(p[..m]) + (taken + Fill(rest));
  }

  lemma FillHash()
    ensures Fill("#") == ""
  {
  }

  lemma HashGives(p: string, s: string, t: string)
    requires p != "" && p[0] == '#' && Matches(p[1..], t)
    ensures Matches(p, s + t)
  {
    assert (s + t)[|s|..] == t && t[0..] == t;
    HashTakes(p, t, 0);
    HashTakes(p, s + t, |s|);
  }

  lemma LosingIsRefused(p: string, m: nat, k: nat, e: nat, beyond: char)
    requires Sticks(p, m, k, e) && Apart(p, Losing(p, m, e))
    ensures !Run(p, Losing(p, m, e), beyond, Start())
  {
    hide Run, Fill, Walk, Apart;
    var s := Losing(p, m, e);
    var w := "/" + Fill(p[m + 1..]);
    assert p[..e] == p[..k] + ("*" + p[k + 1..e]) && p[0..k] == p[..k] && s[0..] == s;
    FillConcat(p[..k], "*" + p[k + 1..e]);
    FillConcat("*", p[k + 1..e]);
    FillStar();
    FillIsPlain(p[k + 1..e]);
    var v := Fill(p[k + 1..e]) + w;
    assert s == Fill(p[0..k]) + v;
    var ni, nj := Along(p, s, beyond, Start(), k, v);
    RunWalk(p, s, beyond, Start(), k, State(k, |s| - |v|, ni, nj));
    var j := |s| - |v|;
    assert s[j..] == v;
    StickingRefused(p, s, beyond, State(k, j, ni, nj), e, w);
  }

  lemma FillStar()
    ensures Fill("*") == ""
  {
  }

  // At the *, with the text of its run and then a slash ahead.
  lemma StickingRefused(p: string, s: string, beyond: char, st: State, e: nat, w: string)
    requires Running(p, s, st) && st.i < e <= |p| && p[st.i] == '*' && (forall n :: st.i < n < e ==> !Wild(p[n]))
    requires e < |p| ==> !Wild(p[e]) && p[e] != '?' && p[e] != '/'
    requires s[st.j..] == Fill(p[st.i + 1..e]) + w && w != "" && w[0] == '/'
    ensures !Run(p, s, beyond, st)
  {
    hide Fill, Walk, Apart, Inv, Reach;
    var State(k, j, _, _) := st;
    var next := State(k + 1, j, k, j + 1);
    assert InRange(p, s, st) && Step(p, s, beyond, st) == Go(next) by { PassesNoWildcardHere(p, s, beyond, st); }
    StepKeepsInv(p, s, beyond, st);
    var ni, nj := Along(p, s, beyond, next, e, w);
    var stuck := State(e, |s| - |w|, k, j + 1);
    RunWalk(p, s, beyond, next, e - k - 1, stuck);
    assert s[|s| - |w|] == w[0] by { assert s[j..][|s| - |w| - j..] == s[|s| - |w|..]; }
    assert Step(p, s, beyond, stuck) == Reject;
  }

  lemma PassesNoWildcardHere(p: string, s: string, beyond: char, st: State)
    requires Running(p, s, st) && st.i < |p| && Wild(p[st.i])
    ensures InRange(p, s, st) && Step(p, s, beyond, st) == Go(State(st.i + 1, st.j, st.i, st.j + 1))
  {
    PassesNoWildcard(p, s, beyond, st);
  }

  // Where the walk gets stuck behind a * that is not passable.
  lemma StuckAt(p: string, k: nat) returns (e: nat)
    requires k < |p| && !Passable(p, k)
    ensures k < e <= |p| && (forall n :: k < n < e ==> !Wild(p[n]))
    ensures e < |p| ==> !Wild(p[e]) && p[e] != '?' && p[e] != '/'
  {
    e := RunEnd(p, k + 1);
    if n :| k < n < e && p[n] != '/' && p[n] != '?' { e := n; }
  }

  // No * has a ? to follow before the first #.
  predicate AsksLate(p: string) {
    forall m :: 0 <= m < |p| && p[m] == '*' && AsksBehind(p, m) ==> '#' in p[..m]
  }

  // For such patterns, among them all without ?, that is exact: otherwise some match is lost.
  lemma LosesNothingExactly(p: string)
    requires AsksLate(p)
    ensures GoodStars(p) <==> forall s: string, beyond: char :: LosesNothing(p, s, beyond)
  {
    hide Run, Matches, Apart, AsksBehind, Passable, Fill, RunEnd;
    if GoodStars(p) {
      forall s: string, beyond: char
        ensures LosesNothing(p, s, beyond)
      {
        NothingLost(p, s, beyond);
      }
    } else {
      var k: nat :| k < |p| && p[k] == '*' && Crossed(p, k) && !Passable(p, k);
      var m := HashBefore(p, k);
      var e := StuckAt(p, k);
      LosingApart(p, m, e);
      LosingMatches(p, m, e);
      LosingIsRefused(p, m, k, e, '/');
      assert !LosesNothing(p, Losing(p, m, e), '/');
    }
  }

  lemma HashBefore(p: string, k: nat) returns (m: nat)
    requires AsksLate(p) && k < |p| && p[k] == '*' && Crossed(p, k)
    ensures m < k && p[m] == '#'
  {
    hide AsksBehind;
    var n: nat :| n <= k && (p[n] == '#' || (p[n] == '*' && AsksBehind(p, n)));
    if p[n] == '#' {
      m := n;
    } else {
      m :| 0 <= m < |p[..n]| && p[..n][m] == '#';
    }
  }

  // Only slashes up to one more wildcard.
  predicate OnlySlashes(p: string, k: nat)
    requires k < |p|
  {
    RunEnd(p, k + 1) < |p| && forall n :: k < n < RunEnd(p, k + 1) ==> p[n] == '/'
  }

  // For patterns of plain characters, * and # in so many words: no match is lost if and only if each * with
  // a # somewhere in front of it has only slashes behind it up to one more wildcard.
  lemma HashThenStar(p: string)
    requires '?' !in p
    ensures (forall k :: 0 <= k < |p| && p[k] == '*' && '#' in p[..k] ==> OnlySlashes(p, k))
            <==> forall s: string, beyond: char :: LosesNothing(p, s, beyond)
  {
    hide LosesNothing, RunEnd;
    NeverAsks(p);
    LosesNothingExactly(p);
    forall k | 0 <= k < |p| && p[k] == '*'
      ensures (Crossed(p, k) <==> '#' in p[..k]) && (Passable(p, k) <==> OnlySlashes(p, k))
    {
      StarCrossed(p, k);
    }
  }

  lemma NeverAsks(p: string)
    requires '?' !in p
    ensures AsksLate(p) && forall m :: 0 <= m < |p| ==> !AsksBehind(p, m)
  {
  }

  lemma StarCrossed(p: string, k: nat)
    requires '?' !in p && k < |p| && p[k] == '*'
    ensures (Crossed(p, k) <==> '#' in p[..k]) && (Passable(p, k) <==> OnlySlashes(p, k))
  {
    hide RunEnd;
    NeverAsks(p);
    if '#' in p[..k] {
      var m :| 0 <= m < k && p[..k][m] == '#';
      assert p[m] == '#';
    } else if Crossed(p, k) {
      var m := HashBefore(p, k);
    }
    assert forall n :: k < n < RunEnd(p, k + 1) ==> p[n] in p;
  }

  /// Inputs.

  // # is given up when a later * is stuck at a slash: #a*b refuses a/ab, though it matches ...
  lemma StarLosesMatch(beyond: char)
    ensures !Run("#a*b", "a/ab", beyond, Start()) && Matches("#a*b", "a/ab")
  {
  }

  // ... and so is the place a * has given to a ? behind it: *a?b refuses aa/b.
  lemma QuestionLosesMatch(beyond: char)
    ensures !Run("*a?b", "aa/b", beyond, Start()) && Matches("*a?b", "aa/b")
  {
    var p, s := "*a?b", "aa/b";
    assert Step(p, s, beyond, State(3, 2, 0, 1)) == Reject;
    assert Run(p, s, beyond, State(1, 0, 0, 1))
        == Run(p, s, beyond, State(2, 1, 0, 1)) == Run(p, s, beyond, State(3, 2, 0, 1));
    MatchesUnfold(p, s);
    MatchesUnfold(p, "a/b");
    MatchesUnfold("a?b", "a/b");
    MatchesUnfold("?b", "/b");
    MatchesUnfold("b", "b");
    assert p[1..] == "a?b" && "a?b"[1..] == "?b" && "?b"[1..] == "b" && "b"[1..] == "" && s[1..] == "a/b";
    assert "a/b"[1..] == "/b" && "/b"[1..] == "b";
  }
}
