/** mg_match as a loop: when it ends, and what it then answers. */
module GlobEnds {
  import opened Glob
  import opened GlobKept
  import opened GlobTaken

  ghost predicate Ends(p: string, s: string, beyond: char, st: State)
    requires InRange(p, s, st)
  {
    exists n: nat :: !Walk(p, s, beyond, st, n).Go?
  }

  // How far characters are passed one for one; a wildcard character in the subject is passed as itself.
  function Compare(p: string, s: string, i: nat, j: nat): nat
    decreases |p| - i
  {
    if i < |p| && j < |s| && (p[i] == '?' || s[j] == p[i]) then 1 + Compare(p, s, i + 1, j + 1) else 0
  }

  // The walk has gone back to a wildcard at a character of the subject that is the same wildcard: that
  // character is passed as itself, and when what follows does not do, the walk goes back to this place.
  predicate Trap(p: string, s: string, beyond: char, st: State) {
    var State(i, j, ni, nj) := st;
    && i == ni < |p| && j == nj < |s| && 0 < nj && p[i] == s[j] && Wild(p[i])
    && var e := 1 + Compare(p, s, i + 1, j + 1);
       && !(i + e == |p| && j + e == |s|) && !(i + e < |p| && Wild(p[i + e]))
       && (p[i] == '#' || (if j + e < |s| then s[j + e] else beyond) != '/')
  }

  lemma {:induction false} Compares(p: string, s: string, beyond: char, st: State)
    requires InRange(p, s, st)
    ensures var e := Compare(p, s, st.i, st.j);
            && st.i + e <= |p| && st.j + e <= |s|
            && Walk(p, s, beyond, st, e) == Go(State(st.i + e, st.j + e, st.ni, st.nj))
            && !(st.i + e < |p| && st.j + e < |s| && (p[st.i + e] == '?' || s[st.j + e] == p[st.i + e]))
    decreases |p| - st.i
  {
    var State(i, j, ni, nj) := st;
    if i < |p| && j < |s| && (p[i] == '?' || s[j] == p[i]) {
      Compares(p, s, beyond, State(i + 1, j + 1, ni, nj));
    }
  }

  lemma TrapReturns(p: string, s: string, beyond: char, st: State) returns (n: nat)
    requires Trap(p, s, beyond, st)
    ensures InRange(p, s, st) && n > 0 && Walk(p, s, beyond, st, n) == Go(st)
  {
    hide Walk, Compare;
    var State(i, j, ni, nj) := st;
    Compares(p, s, beyond, State(i + 1, j + 1, ni, nj));
    var e := 1 + Compare(p, s, i + 1, j + 1);
    WalkOne(p, s, beyond, st);
    WalkOn(p, s, beyond, st, 1, e - 1);
    WalkOne(p, s, beyond, State(i + e, j + e, ni, nj));
    WalkOn(p, s, beyond, st, e, 1);
    n := e + 1;
  }

  lemma {:induction false} TrapNeverEnds(p: string, s: string, beyond: char, st: State, n: nat)
    requires Trap(p, s, beyond, st)
    ensures InRange(p, s, st) && Walk(p, s, beyond, st, n).Go?
    decreases n
  {
    var m := TrapReturns(p, s, beyond, st);
    if n >= m {
      WalkOn(p, s, beyond, st, m, n - m);
      TrapNeverEnds(p, s, beyond, st, n - m);
    } else if !Walk(p, s, beyond, st, n).Go? {
      WalkEnded(p, s, beyond, st, n, m);
    }
  }

  // Where the last wildcard stands: nowhere; just gone back to; followed by characters passed from
  // nj - 1 on; or passed as itself at nj, with what follows it.
  predicate Placed(p: string, s: string, beyond: char, st: State) {
    var State(i, j, ni, nj) := st;
    && InRange(p, s, st)
    && (nj > 0 ==>
          && nj <= |s| + 1 && Wild(p[ni])
          && (|| (i == ni && j == nj)
              || (ni < i && j + 2 == nj + i - ni)
              || Itself(p, s, beyond, st)))
  }

  predicate Itself(p: string, s: string, beyond: char, st: State)
    requires InRange(p, s, st) && st.nj > 0
  {
    var State(i, j, ni, nj) := st;
    && ni < i && j == nj + i - ni && nj < |s| && s[nj] == p[ni]
    && !Trap(p, s, beyond, State(ni, nj, ni, nj))
    && Compare(p, s, ni + 1, nj + 1) == i - ni - 1 + Compare(p, s, i, j)
  }

  function Reached(st: State): nat {
    if st.nj == 0 || st.i == st.ni || st.j == st.nj + st.i - st.ni then st.nj else st.nj - 1
  }

  lemma PlacedStep(p: string, s: string, beyond: char, st: State)
    requires Placed(p, s, beyond, st) && !Trap(p, s, beyond, st) && Step(p, s, beyond, st).Go?
    ensures var t := Step(p, s, beyond, st).next;
            && Placed(p, s, beyond, t)
            && Reached(t) <= |s| + 1
            && (Reached(t) > Reached(st) || (Reached(t) == Reached(st) && |p| - t.i + |s| - t.j < |p| - st.i + |s| - st.j))
  {
  }

  // The walk ends unless it comes to a trap.
  lemma {:induction false} NoTrapEnds(p: string, s: string, beyond: char, st: State) returns (n: nat)
    requires Placed(p, s, beyond, st) && Reached(st) <= |s| + 1
    requires forall m: nat :: Walk(p, s, beyond, st, m).Go? ==> !Trap(p, s, beyond, Walk(p, s, beyond, st, m).next)
    ensures !Walk(p, s, beyond, st, n).Go?
    decreases |s| + 1 - Reached(st), |p| - st.i + |s| - st.j
  {
    hide Trap, Step, Reached, Itself;
    assert InRange(p, s, st) && Walk(p, s, beyond, st, 0) == Go(st);
    WalkOne(p, s, beyond, st);
    match Step(p, s, beyond, st)
    case Go(next) =>
      PlacedStep(p, s, beyond, st);
      forall m: nat | Walk(p, s, beyond, next, m).Go?
        ensures !Trap(p, s, beyond, Walk(p, s, beyond, next, m).next)
      {
        WalkOn(p, s, beyond, st, 1, m);
      }
      n := NoTrapEnds(p, s, beyond, next);
      WalkOn(p, s, beyond, st, 1, n);
      n := n + 1;
    case _ =>
      n := 1;
  }

  // A state of the walk that is a trap.
  ghost predicate Trapped(p: string, s: string, beyond: char) {
    exists m: nat :: var t := Walk(p, s, beyond, Start(), m); t.Go? && Trap(p, s, beyond, t.next)
  }

  // For every pattern and subject: the walk ends if and only if it never comes to a trap.
  lemma WalkEnds(p: string, s: string, beyond: char)
    ensures Ends(p, s, beyond, Start()) <==> !Trapped(p, s, beyond)
  {
    hide Walk, Trap;
    if Trapped(p, s, beyond) {
      var m: nat :| var t := Walk(p, s, beyond, Start(), m); t.Go? && Trap(p, s, beyond, t.next);
      var trap := Walk(p, s, beyond, Start(), m).next;
      forall n: nat
        ensures Walk(p, s, beyond, Start(), n).Go?
      {
        TrapNeverEnds(p, s, beyond, trap, n);
        WalkOn(p, s, beyond, Start(), m, n);
        if !Walk(p, s, beyond, Start(), n).Go? { WalkEnded(p, s, beyond, Start(), n, m + n); }
      }
    } else {
      var n := NoTrapEnds(p, s, beyond, Start());
    }
  }

  /// Conditions that can be checked before the call.

  // No wildcard character of the pattern stands in the subject behind a different character.
  predicate NoneBehind(p: string, s: string) {
    forall j :: 0 < j < |s| && Wild(s[j]) && s[j] in p ==> s[j - 1] == s[j]
  }

  // The last wildcard will not go on at the same wildcard.
  predicate Elsewhere(p: string, s: string, st: State) {
    InRange(p, s, st) && (0 < st.nj < |s| && Wild(s[st.nj]) ==> p[st.ni] != s[st.nj])
  }

  lemma {:induction false} StaysElsewhere(p: string, s: string, beyond: char, st: State, n: nat)
    requires NoneBehind(p, s) && Elsewhere(p, s, st) && Walk(p, s, beyond, st, n).Go?
    ensures Elsewhere(p, s, Walk(p, s, beyond, st, n).next)
    decreases n
  {
    if n > 0 {
      var next := Step(p, s, beyond, st).next;
      StepElsewhere(p, s, beyond, st);
      StaysElsewhere(p, s, beyond, next, n - 1);
    }
  }

  lemma StepElsewhere(p: string, s: string, beyond: char, st: State)
    requires NoneBehind(p, s) && Elsewhere(p, s, st) && Step(p, s, beyond, st).Go?
    ensures Elsewhere(p, s, Step(p, s, beyond, st).next)
  {
    if st.i < |p| { assert p[st.i] in p; }
  }

  lemma NoneBehindEnds(p: string, s: string, beyond: char)
    requires NoneBehind(p, s)
    ensures Ends(p, s, beyond, Start())
  {
    hide Walk, NoneBehind, Ends;
    forall m: nat | Walk(p, s, beyond, Start(), m).Go?
      ensures !Trap(p, s, beyond, Walk(p, s, beyond, Start(), m).next)
    {
      StaysElsewhere(p, s, beyond, Start(), m);
    }
    WalkEnds(p, s, beyond);
  }

  // The walk ends on every subject if and only if the pattern has no wildcard.
  lemma PatternEnds(p: string)
    ensures (forall s: string, beyond: char :: Ends(p, s, beyond, Start())) <==> '*' !in p && '#' !in p
  {
    hide Ends;
    if '*' !in p && '#' !in p {
      forall s: string, beyond: char
        ensures Ends(p, s, beyond, Start())
      {
        NoneBehindEnds(p, s, beyond);
      }
    } else {
      var k := LastWild(p);
      TrappingTraps(p, k, '/');
      WalkEnds(p, Trapping(p, k), '/');
    }
  }

  lemma {:induction false} LastWild(p: string) returns (k: nat)
    requires '*' in p || '#' in p
    ensures k < |p| && Wild(p[k]) && forall n :: k < n < |p| ==> !Wild(p[n])
    decreases |p|
  {
    var n := |p| - 1;
    assert p == p[..n] + [p[n]];
    if Wild(p[n]) { k := n; } else { k := LastWild(p[..n]); }
  }

  // The wildcard itself behind one character, and more than the rest of the pattern can take.
  function Trapping(p: string, k: nat): string
    requires k < |p|
  {
    Fill(p[..k]) + (['x', p[k]] + Xs(|p| - k))
  }

  function Xs(n: nat): (r: string)
    ensures |r| == n && forall i :: 0 <= i < n ==> r[i] == 'x'
  {
    seq(n, _ => 'x')
  }

  lemma TrappingIs(p: string, k: nat)
    requires k < |p|
    ensures var s, a := Trapping(p, k), |Fill(p[..k])|;
            && |s| == a + 2 + |p| - k && s[a] == 'x' && s[a + 1] == p[k] && forall i :: a + 2 <= i < |s| ==> s[i] == 'x'
  {
    hide Fill, Xs;
    var s, a, xs := Trapping(p, k), |Fill(p[..k])|, Xs(|p| - k);
    assert forall i :: a + 2 <= i < |s| ==> s[i] == xs[i - a - 2];
  }

  lemma TrappingTraps(p: string, k: nat, beyond: char)
    requires k < |p| && Wild(p[k]) && forall n :: k < n < |p| ==> !Wild(p[n])
    ensures Trapped(p, Trapping(p, k), beyond)
  {
    hide Walk, Fill, Compare, Trapping;
    var s, a := Trapping(p, k), |Fill(p[..k])|;
    TrappingIs(p, k);
    var ni, nj := TrappingReached(p, k, beyond);
    Compares(p, s, beyond, State(k + 1, a, k, a + 1));
    var n := GoesBack(p, s, beyond, State(k, a, ni, nj));
    WalkOn(p, s, beyond, Start(), k, n);
    Compares(p, s, beyond, State(k + 1, a + 2, k, a + 1));
    assert Trap(p, s, beyond, State(k, a + 1, k, a + 1));
  }

  lemma TrappingReached(p: string, k: nat, beyond: char) returns (ni: nat, nj: nat)
    requires k < |p|
    ensures var s, st := Trapping(p, k), State(k, |Fill(p[..k])|, ni, nj);
            InRange(p, s, st) && Walk(p, s, beyond, Start(), k) == Go(st)
  {
    hide Walk, Fill, Xs;
    var s, w := Trapping(p, k), ['x', p[k]] + Xs(|p| - k);
    assert p[0..k] == p[..k] && s[0..] == s;
    ni, nj := Along(p, s, beyond, Start(), k, w);
  }

  // A last wildcard that finds no match goes one further.
  lemma GoesBack(p: string, s: string, beyond: char, st: State) returns (n: nat)
    requires InRange(p, s, st) && st.i < |p| && Wild(p[st.i]) && forall n :: st.i < n < |p| ==> !Wild(p[n])
    requires st.j < |s| && s[st.j] != p[st.i]
    requires var e := Compare(p, s, st.i + 1, st.j);
             && st.j + e < |s| && (p[st.i] == '#' || s[st.j + e] != '/')
    ensures Walk(p, s, beyond, st, n) == Go(State(st.i, st.j + 1, st.i, st.j + 1))
  {
    hide Walk, Compare;
    var State(k, j, _, _) := st;
    var next := State(k + 1, j, k, j + 1);
    WalkOne(p, s, beyond, st);
    Compares(p, s, beyond, next);
    var e := Compare(p, s, k + 1, j);
    WalkOn(p, s, beyond, st, 1, e);
    WalkOne(p, s, beyond, State(k + 1 + e, j + e, k, j + 1));
    WalkOn(p, s, beyond, st, 1 + e, 1);
    n := e + 2;
  }

  // The walk ends for every pattern if and only if no wildcard character of the subject stands behind a
  // different character.
  lemma SubjectEnds(s: string)
    ensures (forall p: string, beyond: char :: Ends(p, s, beyond, Start()))
            <==> forall j :: 0 < j < |s| && Wild(s[j]) ==> s[j - 1] == s[j]
  {
    hide Ends;
    if forall j :: 0 < j < |s| && Wild(s[j]) ==> s[j - 1] == s[j] {
      forall p: string, beyond: char
        ensures Ends(p, s, beyond, Start())
      {
        NoneBehindEnds(p, s, beyond);
      }
    } else {
      var j: nat :| 0 < j < |s| && Wild(s[j]) && s[j - 1] != s[j];
      CatchingTraps(s, j);
      WalkEnds(Catching(s, j), s, 'x');
    }
  }

  // The slashes a text begins with.
  function Leading(s: string): (n: nat)
    ensures n <= |s| && (n < |s| ==> s[n] != '/') && forall i :: 0 <= i < n ==> s[i] == '/'
  {
    if s != "" && s[0] == '/' then 1 + Leading(s[1..]) else 0
  }

  lemma LeadingAt(s: string, from: nat)
    requires from <= |s|
    ensures var to := from + Leading(s[from..]);
            to <= |s| && (to < |s| ==> s[to] != '/') && forall i :: from <= i < to ==> s[i] == '/'
  {
    var to := from + Leading(s[from..]);
    assert forall i :: from <= i < |s| ==> s[i] == s[from..][i - from];
  }

  // The wildcard at j, behind as many ? as there are characters before, and with one slash more to follow
  // than there is in the subject.
  function Catching(s: string, j: nat): string
    requires 0 < j < |s|
  {
    seq(j - 1, _ => '?') + ([s[j]] + seq(Leading(s[j + 1..]) + 1, _ => '/'))
  }

  lemma CatchingTraps(s: string, j: nat)
    requires 0 < j < |s| && Wild(s[j]) && s[j - 1] != s[j]
    ensures Trapped(Catching(s, j), s, 'x')
  {
    hide Walk, Compare, Leading;
    var p, e := Catching(s, j), Leading(s[j + 1..]);
    assert forall i :: 0 <= i < j - 1 ==> p[i] == '?';
    assert p[j - 1] == s[j] && |p| == j + e + 1 && forall i :: j <= i < |p| ==> p[i] == '/';
    LeadingAt(s, j + 1);
    QuestionsCompare(p, s, 0, j - 1);
    Compares(p, s, 'x', Start());
    SlashesCompare(p, s, j, j - 1, if s[j - 1] == '/' then 1 else 0);
    SlashesCompare(p, s, j, j + 1, e);
    var st := State(j - 1, j - 1, 0, 0);
    var n := GoesBack(p, s, 'x', st);
    WalkOn(p, s, 'x', Start(), j - 1, n);
    assert Trap(p, s, 'x', State(j - 1, j, j - 1, j));
  }

  lemma {:induction false} QuestionsCompare(p: string, s: string, i: nat, k: nat)
    requires i <= k < |p| && k < |s| && (forall n :: i <= n < k ==> p[n] == '?') && p[k] != '?' && p[k] != s[k]
    ensures Compare(p, s, i, i) == k - i
    decreases k - i
  {
    if i < k { QuestionsCompare(p, s, i + 1, k); }
  }

  lemma {:induction false} SlashesCompare(p: string, s: string, i: nat, j: nat, n: nat)
    requires i + n <= |p| && j + n <= |s| && (forall m :: i <= m < |p| ==> p[m] == '/')
    requires (forall m :: j <= m < j + n ==> s[m] == '/') && (i + n < |p| && j + n < |s| ==> s[j + n] != '/')
    ensures Compare(p, s, i, j) == n
    decreases n
  {
    if n > 0 { SlashesCompare(p, s, i + 1, j + 1, n - 1); }
  }

  /// The code.

  // What the walk comes to.
  ghost predicate Accepted(p: string, s: string, beyond: char) {
    exists n: nat :: Walk(p, s, beyond, Start(), n) == Accept
  }

  // Where the subject holds no wildcard character of the pattern the walk ends, and comes to Run.
  lemma {:induction false} WalkIsRun(p: string, s: string, beyond: char, st: State) returns (n: nat)
    requires Running(p, s, st)
    ensures InRange(p, s, st) && Walk(p, s, beyond, st, n) == (if Run(p, s, beyond, st) then Accept else Reject)
    decreases |s| + 1 - Reach(st), |p| - st.i + |s| - st.j
  {
    hide Step;
    WalkOne(p, s, beyond, st);
    match Step(p, s, beyond, st)
    case Go(next) =>
      StepKeepsInv(p, s, beyond, st);
      n := WalkIsRun(p, s, beyond, next);
      WalkOn(p, s, beyond, st, 1, n);
      n := n + 1;
    case _ =>
      n := 1;
  }

  lemma OneEnd(p: string, s: string, beyond: char, st: State, n: nat, m: nat)
    requires InRange(p, s, st) && !Walk(p, s, beyond, st, n).Go? && !Walk(p, s, beyond, st, m).Go?
    ensures Walk(p, s, beyond, st, n) == Walk(p, s, beyond, st, m)
  {
    if n <= m { WalkEnded(p, s, beyond, st, n, m); } else { WalkEnded(p, s, beyond, st, m, n); }
  }

  lemma ApartEnds(p: string, s: string, beyond: char)
    requires Apart(p, s)
    ensures Ends(p, s, beyond, Start()) && (Accepted(p, s, beyond) <==> Run(p, s, beyond, Start()))
  {
    hide Walk, Run;
    var n := WalkIsRun(p, s, beyond, Start());
    if m: nat :| Walk(p, s, beyond, Start(), m) == Accept { OneEnd(p, s, beyond, Start(), m, n); }
  }

  // mg_match without captures, wherever it ends.
  method Match(s: string, p: string, beyond: char) returns (ok: bool)
    requires Ends(p, s, beyond, Start())
    ensures ok <==> Accepted(p, s, beyond)
    ensures Apart(p, s) ==> (ok ==> Fits(p, s)) && ('*' !in p || '/' !in s ==> (ok <==> Matches(p, s)))
    ensures Apart(p, s) && GoodStars(p) && Matches(p, s) ==> ok
    ensures Apart(p, s) && GoodRuns(p) && ok ==> Matches(p, s)
  {
    hide Fits, Matches, Walk, Run, GoodRuns, GoodStars;
    if Apart(p, s) {
      ApartEnds(p, s, beyond);
      MatchIsExact(p, s, beyond);
      if GoodStars(p) { NothingLost(p, s, beyond); }
      if GoodRuns(p) { NothingTaken(p, s, beyond); }
    }
    var i, j, ni, nj := 0, 0, 0, 0;
    ghost var left: nat :| !Walk(p, s, beyond, Start(), left).Go?;
    ghost var end := Walk(p, s, beyond, Start(), left);
    while i < |p| || j < |s|
      invariant InRange(p, s, State(i, j, ni, nj)) && !end.Go?
      invariant Walk(p, s, beyond, State(i, j, ni, nj), left) == end
      decreases left
    {
      WalkTurn(p, s, beyond, State(i, j, ni, nj), left);
      if i < |p| && j < |s| && (p[i] == '?' || s[j] == p[i]) {
        i, j := i + 1, j + 1;
      } else if i < |p| && (p[i] == '*' || p[i] == '#') {
        ni, nj := i, j + 1;
        i := i + 1;
      } else if 0 < nj <= |s| && (p[ni] == '#' || (if j < |s| then s[j] else beyond) != '/') {
        i, j := ni, nj;
      } else {
        EndIs(p, s, beyond, end);
        return false;
      }
      left := left - 1;
    }
    WalkTurn(p, s, beyond, State(i, j, ni, nj), left);
    EndIs(p, s, beyond, end);
    return true;
  }

  lemma WalkTurn(p: string, s: string, beyond: char, st: State, n: nat)
    requires InRange(p, s, st) && !Walk(p, s, beyond, st, n).Go?
    ensures n > 0
    ensures Walk(p, s, beyond, st, n)
            == match Step(p, s, beyond, st) case Go(next) => Walk(p, s, beyond, next, n - 1) case end => end
  {
  }

  lemma EndIs(p: string, s: string, beyond: char, end: Turn)
    requires !end.Go? && exists n: nat :: Walk(p, s, beyond, Start(), n) == end
    ensures Accepted(p, s, beyond) <==> end == Accept
  {
    hide Walk;
    var n: nat :| Walk(p, s, beyond, Start(), n) == end;
    if m: nat :| Walk(p, s, beyond, Start(), m) == Accept { OneEnd(p, s, beyond, Start(), m, n); }
  }

  /// Inputs.

  // From one character of x to the next, the pattern #c moves on.
  lemma HashMoves(c: char, s: string, beyond: char, st: State) returns (n: nat)
    requires !Wild(c) && c != '?' && st.i == 0 && st.j + 1 < |s| && s[st.j] != '#'
    requires st == Start() || (st.ni == 0 && st.nj == st.j)
    ensures Walk(['#', c], s, beyond, st, n) == Go(State(0, st.j + 1, 0, st.j + 1))
  {
    var p, j := ['#', c], st.j;
    hide Walk;
    var one := State(1, j, 0, j + 1);
    WalkOne(p, s, beyond, st);
    WalkOne(p, s, beyond, one);
    WalkOn(p, s, beyond, st, 1, 1);
    n := 2;
    if s[j] == c {
      WalkOne(p, s, beyond, State(2, j + 1, 0, j + 1));
      WalkOn(p, s, beyond, st, 2, 1);
      n := 3;
    }
  }

  lemma {:induction false} HashArrives(c: char, s: string, beyond: char, k: nat) returns (n: nat)
    requires !Wild(c) && c != '?' && 0 < k < |s| && '#' !in s[..k]
    ensures Walk(['#', c], s, beyond, Start(), n) == Go(State(0, k, 0, k))
    decreases k
  {
    hide Walk;
    assert s[..k][k - 1] == s[k - 1];
    if k == 1 {
      n := HashMoves(c, s, beyond, Start());
    } else {
      assert s[..k - 1] == s[..k][..k - 1];
      n := HashArrives(c, s, beyond, k - 1);
      var m := HashMoves(c, s, beyond, State(0, k - 1, 0, k - 1));
      WalkOn(['#', c], s, beyond, Start(), n, m);
      n := n + m;
    }
  }

  // A # in the subject is passed as itself: for every plain character c, the pattern #c on a subject
  // whose first # is not its first character ends if and only if just c follows that #.
  lemma HashInSubject(c: char, x: string, t: string, beyond: char)
    requires !Wild(c) && c != '?' && x != "" && '#' !in x
    ensures Ends(['#', c], x + ("#" + t), beyond, Start()) <==> t == [c]
  {
    var p, s, h := ['#', c], x + ("#" + t), |x|;
    hide Walk, Ends;
    assert s[..h] == x && s[h] == '#' && s[h + 1..] == t;
    var n := HashArrives(c, s, beyond, h);
    var st := State(0, h, 0, h);
    assert |t| > 0 ==> s[h + 1] == t[0];
    if t == [c] {
      Compares(p, s, beyond, st);
      assert Compare(p, s, 0, h) == 1 + Compare(p, s, 1, h + 1) == 2 + Compare(p, s, 2, h + 2) == 2;
      WalkOne(p, s, beyond, State(2, h + 2, 0, h));
      WalkOn(p, s, beyond, st, 2, 1);
      WalkOn(p, s, beyond, Start(), n, 3);
      EndsAt(p, s, beyond, n + 3);
    } else {
      assert Compare(p, s, 1, h + 1) == if t != "" && t[0] == c then 1 else 0;
      assert Trap(p, s, beyond, st);
      assert Trapped(p, s, beyond);
      WalkEnds(p, s, beyond);
    }
  }

  lemma EndsAt(p: string, s: string, beyond: char, n: nat)
    requires !Walk(p, s, beyond, Start(), n).Go?
    ensures Ends(p, s, beyond, Start())
  {
  }

  // So #a on x#b comes back to the same state after two turns.
  lemma HashInSubjectLoops(beyond: char)
    ensures var st := State(0, 1, 0, 1); var p, s := "#a", "x#b";
            && Step(p, s, beyond, Start()) == Go(State(1, 0, 0, 1))
            && Step(p, s, beyond, State(1, 0, 0, 1)) == Go(st)
            && Step(p, s, beyond, st) == Go(State(1, 2, 0, 1))
            && Step(p, s, beyond, State(1, 2, 0, 1)) == Go(st)
  {
  }
}
