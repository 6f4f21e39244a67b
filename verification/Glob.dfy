/** mg_match: ? is one character, # any run, * as documented any run without a slash. */
module Glob {
  predicate Wild(c: char) {
    c == '#' || c == '*'
  }

  /// What the wildcards mean.

  predicate Matches(p: string, s: string)
    decreases |p| + |s|
  {
    if p == "" then s == ""
    else if p[0] == '#' then Matches(p[1..], s) || (s != "" && Matches(p, s[1..]))
    else if p[0] == '*' then Matches(p[1..], s) || (s != "" && s[0] != '/' && Matches(p, s[1..]))
    else s != "" && (p[0] == '?' || p[0] == s[0]) && Matches(p[1..], s[1..])
  }

  // The same with * taken for #.
  predicate Fits(p: string, s: string)
    decreases |p| + |s|
  {
    if p == "" then s == ""
    else if Wild(p[0]) then Fits(p[1..], s) || (s != "" && Fits(p, s[1..]))
    else s != "" && (p[0] == '?' || p[0] == s[0]) && Fits(p[1..], s[1..])
  }

  lemma {:induction false} MatchesFits(p: string, s: string)
    ensures Matches(p, s) ==> Fits(p, s)
    ensures '*' !in p || '/' !in s ==> Matches(p, s) == Fits(p, s)
    decreases |p| + |s|
  {
    if p != "" {
      if Wild(p[0]) { MatchesFits(p[1..], s); }
      if s != "" {
        assert s[0] in s;
        MatchesFits(p[1..], s[1..]);
        if Wild(p[0]) { MatchesFits(p, s[1..]); }
      }
    }
  }

  /// The loop.

  // i, j: positions in pattern and subject. ni: the last wildcard passed, and nj: where the subject
  // goes on if that wildcard takes one character more; nj is 0 before the first wildcard.
  datatype State = State(i: nat, j: nat, ni: nat, nj: nat)
  datatype Turn = Go(next: State) | Accept | Reject

  // One turn. `beyond` is the byte behind the subject, which the code reads once j has run off it.
  function Step(p: string, s: string, beyond: char, st: State): Turn
    requires st.i <= |p| && st.j <= |s| && (st.nj > 0 ==> st.ni < |p|)
  {
    var State(i, j, ni, nj) := st;
    if i == |p| && j == |s| then Accept
    else if i < |p| && j < |s| && (p[i] == '?' || s[j] == p[i]) then Go(State(i + 1, j + 1, ni, nj))
    else if i < |p| && Wild(p[i]) then Go(State(i + 1, j, i, j + 1))
    else if 0 < nj <= |s| && (p[ni] == '#' || (if j < |s| then s[j] else beyond) != '/')
    then Go(State(ni, nj, ni, nj))
    else Reject
  }

  // Since the last wildcard only plain characters have been passed, one for one.
  predicate Inv(p: string, s: string, st: State) {
    var State(i, j, ni, nj) := st;
    && i <= |p| && j <= |s|
    && (nj > 0 ==> ni < |p| && Wild(p[ni])
                   && ((i == ni && j == nj)
                       || (ni < i && j + 2 == nj + i - ni && forall k :: ni < k < i ==> !Wild(p[k]))))
  }

  // No wildcard character of the pattern occurs in the subject.
  predicate Apart(p: string, s: string) {
    ('#' !in p || '#' !in s) && ('*' !in p || '*' !in s)
  }

  // How far the last wildcard reaches.
  function Reach(st: State): nat {
    if st.nj == 0 || st.i == st.ni then st.nj else st.nj - 1
  }

  lemma StepKeepsInv(p: string, s: string, beyond: char, st: State)
    requires Apart(p, s) && Inv(p, s, st) && Step(p, s, beyond, st).Go?
    ensures var t := Step(p, s, beyond, st).next;
            && Inv(p, s, t)
            && Reach(t) <= |s| + 1
            && (Reach(t) > Reach(st) || (Reach(t) == Reach(st) && |p| - t.i + |s| - t.j < |p| - st.i + |s| - st.j))
  {
    var State(i, j, ni, nj) := st;
    if i < |p| && j < |s| && s[j] == p[i] { assert s[j] in s && p[i] in p; }
  }

  function Run(p: string, s: string, beyond: char, st: State): bool
    requires Apart(p, s) && Inv(p, s, st) && Reach(st) <= |s| + 1
    decreases |s| + 1 - Reach(st), |p| - st.i + |s| - st.j
  {
    match Step(p, s, beyond, st)
    case Accept => true
    case Reject => false
    case Go(next) =>
      StepKeepsInv(p, s, beyond, st);
      Run(p, s, beyond, next)
  }

  /// Backtracking to the last wildcard loses nothing.

  // A run of plain characters behind a wildcard takes at least its own length from the subject.
  lemma {:induction false} PlainRun(p: string, n: nat, s: string) returns (k: nat)
    requires n <= |p| && (forall i :: 0 <= i < n ==> !Wild(p[i])) && Fits(p, s)
    ensures k == n <= |s| && Fits(p[n..], s[n..])
    decreases n
  {
    k := n;
    if n > 0 {
      var _ := PlainRun(p[1..], n - 1, s[1..]);
      assert p[1..][n - 1..] == p[n..] && s[1..][n - 1..] == s[n..];
    } else {
      assert p[0..] == p && s[0..] == s;
    }
  }

  lemma {:induction false} WildRun(p: string, n: nat, s: string) returns (k: nat)
    requires 0 < n <= |p| && Wild(p[0]) && (forall i :: 0 < i < n ==> !Wild(p[i])) && Fits(p, s)
    ensures n - 1 <= k <= |s| && Fits(p[n..], s[k..])
    decreases |s|
  {
    WildFirst(p, s);
    hide Fits;
    if Fits(p[1..], s) {
      k := PlainRun(p[1..], n - 1, s);
      TailOfTail(p, n);
    } else {
      k := WildRun(p, n, s[1..]);
      assert s[1..][k..] == s[k + 1..];
      k := k + 1;
    }
  }

  lemma WildFirst(p: string, s: string)
    requires p != "" && Wild(p[0]) && Fits(p, s)
    ensures Fits(p[1..], s) || (s != "" && Fits(p, s[1..]))
  {
  }

  lemma TailOfTail(p: string, n: nat)
    requires 0 < n <= |p|
    ensures p[1..][n - 1..] == p[n..]
  {
  }

  // A wildcard at the front can take any number of characters more.
  lemma {:induction false} WildTakes(p: string, s: string, k: nat)
    requires p != "" && Wild(p[0]) && k <= |s| && Fits(p, s[k..])
    ensures Fits(p, s)
    decreases k
  {
    if k > 0 {
      assert s[1..][k - 1..] == s[k..];
      WildTakes(p, s[1..], k - 1);
    } else {
      assert s[0..] == s;
    }
  }

  // What is left can still be matched, from here or with the last wildcard taking one more.
  predicate Ahead(p: string, s: string, st: State)
    requires Inv(p, s, st)
  {
    Fits(p[st.i..], s[st.j..]) || (0 < st.nj <= |s| && Fits(p[st.ni..], s[st.nj..]))
  }

  // At a wildcard the earlier one is no longer needed: it could only lead further ahead.
  lemma EarlierWildcard(p: string, s: string, st: State)
    requires Inv(p, s, st) && st.i < |p| && Wild(p[st.i])
    requires 0 < st.nj <= |s| && Fits(p[st.ni..], s[st.nj..])
    ensures Fits(p[st.i..], s[st.j..])
  {
    var State(i, j, ni, nj) := st;
    if ni < i {
      var q, t := p[ni..], s[nj..];
      var k := WildRun(q, i - ni, t);
      assert q[i - ni..] == p[i..] && t[k..] == s[nj + k..] == s[j..][nj + k - j..];
      WildTakes(p[i..], s[j..], nj + k - j);
    }
  }

  lemma FitsUnfold(p: string, s: string)
    ensures Fits(p, s) <==>
            if p == "" then s == ""
            else if Wild(p[0]) then Fits(p[1..], s) || (s != "" && Fits(p, s[1..]))
            else s != "" && (p[0] == '?' || p[0] == s[0]) && Fits(p[1..], s[1..])
  {
  }

  lemma UnfoldAt(p: string, s: string, i: nat, j: nat)
    requires i <= |p| && j <= |s|
    ensures Fits(p[i..], s[j..]) <==>
            if i == |p| then j == |s|
            else if Wild(p[i]) then Fits(p[i + 1..], s[j..]) || (j < |s| && Fits(p[i..], s[j + 1..]))
            else j < |s| && (p[i] == '?' || p[i] == s[j]) && Fits(p[i + 1..], s[j + 1..])
  {
    hide Fits;
    var q, t := p[i..], s[j..];
    FitsUnfold(q, t);
    if i < |p| { assert q[0] == p[i] && q[1..] == p[i + 1..]; }
    if j < |s| { assert t[0] == s[j] && t[1..] == s[j + 1..]; }
  }

  lemma PassingLosesNothing(p: string, s: string, st: State)
    requires Apart(p, s) && Inv(p, s, st) && st.i < |p| && st.j < |s|
    requires p[st.i] == '?' || s[st.j] == p[st.i]
    ensures Fits(p[st.i..], s[st.j..]) <==> Fits(p[st.i + 1..], s[st.j + 1..])
  {
    hide Fits;
    UnfoldAt(p, s, st.i, st.j);
    assert p[st.i] in p && s[st.j] in s;
  }

  lemma StepLosesNothing(p: string, s: string, beyond: char, st: State)
    requires Apart(p, s) && Inv(p, s, st) && Step(p, s, beyond, st).Go?
    ensures Inv(p, s, Step(p, s, beyond, st).next)
    ensures Ahead(p, s, st) <==> Ahead(p, s, Step(p, s, beyond, st).next)
  {
    hide Fits, Apart;
    StepKeepsInv(p, s, beyond, st);
    var State(i, j, ni, nj) := st;
    if i < |p| && j < |s| && (p[i] == '?' || s[j] == p[i]) {
      PassingLosesNothing(p, s, st);
    } else {
      UnfoldAt(p, s, i, j);
      if i < |p| && Wild(p[i]) && 0 < nj <= |s| && Fits(p[ni..], s[nj..]) { EarlierWildcard(p, s, st); }
    }
  }

  // Giving up is right unless it was a slash that kept * from taking one more.
  lemma RejectIsRight(p: string, s: string, beyond: char, st: State)
    requires Apart(p, s) && Inv(p, s, st) && Step(p, s, beyond, st).Reject?
    requires '*' !in p || '/' !in s
    ensures !Ahead(p, s, st)
  {
    var State(i, j, ni, nj) := st;
    if i < |p| { assert p[i..][0] == p[i]; }
    if j < |s| { assert s[j..][0] == s[j] && s[j] in s; }
    if 0 < nj <= |s| {
      assert p[ni] in p;
      assert j == |s| && ni < i;
      if Fits(p[ni..], s[nj..]) {
        var k := WildRun(p[ni..], i - ni, s[nj..]);
        assert false;
      }
    }
  }

  lemma {:induction false} RunIsAhead(p: string, s: string, beyond: char, st: State)
    requires Apart(p, s) && Inv(p, s, st) && Reach(st) <= |s| + 1
    ensures Run(p, s, beyond, st) ==> Ahead(p, s, st)
    ensures '*' !in p || '/' !in s ==> (Run(p, s, beyond, st) <==> Ahead(p, s, st))
    decreases |s| + 1 - Reach(st), |p| - st.i + |s| - st.j
  {
    match Step(p, s, beyond, st)
    case Accept => assert p[st.i..] == "" && s[st.j..] == "";
    case Reject => if '*' !in p || '/' !in s { RejectIsRight(p, s, beyond, st); }
    case Go(next) =>
      StepLosesNothing(p, s, beyond, st);
      StepKeepsInv(p, s, beyond, st);
      RunIsAhead(p, s, beyond, next);
  }

  /// Main results.

  function Start(): State {
    State(0, 0, 0, 0)
  }

  // Where no slash can be taken the walk is exact, on subjects that contain no wildcard character of the
  // pattern. Otherwise it still never accepts a subject that would not match with * taken for #.
  lemma SlashlessIsExact(p: string, s: string, beyond: char)
    requires Apart(p, s)
    ensures Run(p, s, beyond, Start()) ==> Fits(p, s)
    ensures '*' !in p || '/' !in s ==> (Run(p, s, beyond, Start()) <==> Matches(p, s))
  {
    RunIsAhead(p, s, beyond, Start());
    MatchesFits(p, s);
    assert p[0..] == p && s[0..] == s;
  }

  /// What it is to match.

  lemma MatchesUnfold(p: string, s: string)
    ensures Matches(p, s) <==>
            if p == "" then s == ""
            else if p[0] == '#' then Matches(p[1..], s) || (s != "" && Matches(p, s[1..]))
            else if p[0] == '*' then Matches(p[1..], s) || (s != "" && s[0] != '/' && Matches(p, s[1..]))
            else s != "" && (p[0] == '?' || p[0] == s[0]) && Matches(p[1..], s[1..])
  {
  }

  // What the front of the rest of the pattern leads to, in place.
  lemma MatchesAt(p: string, s: string, i: nat, j: nat)
    requires i <= |p| && j <= |s|
    ensures Matches(p[i..], s[j..]) <==>
            if i == |p| then j == |s|
            else if p[i] == '#' then Matches(p[i + 1..], s[j..]) || (j < |s| && Matches(p[i..], s[j + 1..]))
            else if p[i] == '*'
            then Matches(p[i + 1..], s[j..]) || (j < |s| && s[j] != '/' && Matches(p[i..], s[j + 1..]))
            else j < |s| && (p[i] == '?' || p[i] == s[j]) && Matches(p[i + 1..], s[j + 1..])
  {
    hide Matches;
    MatchesUnfold(p[i..], s[j..]);
    if i < |p| { assert p[i..][0] == p[i] && p[i..][1..] == p[i + 1..]; }
    if j < |s| { assert s[j..][0] == s[j] && s[j..][1..] == s[j + 1..]; }
  }

  predicate NoSlash(s: string) {
    forall k :: 0 <= k < |s| ==> s[k] != '/'
  }

  // * takes k characters, none of them a slash.
  lemma {:induction false} StarTook(p: string, s: string) returns (k: nat)
    requires p != "" && p[0] == '*' && Matches(p, s)
    ensures k <= |s| && NoSlash(s[..k]) && Matches(p[1..], s[k..])
    decreases |s|
  {
    if Matches(p[1..], s) {
      k := 0;
      assert s[0..] == s;
    } else {
      var n := StarTook(p, s[1..]);
      k := n + 1;
      assert s[1..][n..] == s[k..] && s[..k] == [s[0]] + s[1..][..n];
    }
  }

  lemma {:induction false} StarTakes(p: string, s: string, k: nat)
    requires p != "" && p[0] == '*' && k <= |s| && NoSlash(s[..k]) && Matches(p, s[k..])
    ensures Matches(p, s)
    decreases k
  {
    if k > 0 {
      assert s[1..][k - 1..] == s[k..] && s[1..][..k - 1] == s[..k][1..];
      assert s[..k][0] == s[0];
      StarTakes(p, s[1..], k - 1);
    } else {
      assert s[0..] == s;
    }
  }

  lemma {:induction false} HashTook(p: string, s: string) returns (k: nat)
    requires p != "" && p[0] == '#' && Matches(p, s)
    ensures k <= |s| && Matches(p[1..], s[k..])
    decreases |s|
  {
    if Matches(p[1..], s) {
      k := 0;
      assert s[0..] == s;
    } else {
      var n := HashTook(p, s[1..]);
      k := n + 1;
      assert s[1..][n..] == s[k..];
    }
  }

  lemma {:induction false} HashTakes(p: string, s: string, k: nat)
    requires p != "" && p[0] == '#' && k <= |s| && Matches(p, s[k..])
    ensures Matches(p, s)
    decreases k
  {
    if k > 0 {
      assert s[1..][k - 1..] == s[k..];
      HashTakes(p, s[1..], k - 1);
    } else {
      assert s[0..] == s;
    }
  }

  // Patterns behind each other match texts behind each other ...
  lemma {:induction false} MatchesConcat(p: string, q: string, s: string, t: string)
    requires Matches(p, s) && Matches(q, t)
    ensures Matches(p + q, s + t)
    decreases |p| + |s|
  {
    if p == "" {
      assert p + q == q && s + t == t;
    } else {
      assert (p + q)[0] == p[0] && (p + q)[1..] == p[1..] + q;
      if s != "" { assert (s + t)[0] == s[0] && (s + t)[1..] == s[1..] + t; }
      if Wild(p[0]) && Matches(p[1..], s) {
        MatchesConcat(p[1..], q, s, t);
      } else if Wild(p[0]) {
        MatchesConcat(p, q, s[1..], t);
      } else {
        MatchesConcat(p[1..], q, s[1..], t);
      }
    }
  }

  // ... and only such texts.
  lemma {:induction false} MatchesSplit(p: string, q: string, s: string) returns (j: nat)
    requires Matches(p + q, s)
    ensures j <= |s| && Matches(p, s[..j]) && Matches(q, s[j..])
    decreases |p| + |s|
  {
    if p == "" {
      assert p + q == q && s[0..] == s;
      j := 0;
    } else {
      assert (p + q)[0] == p[0] && (p + q)[1..] == p[1..] + q;
      if Wild(p[0]) && Matches((p + q)[1..], s) {
        j := MatchesSplit(p[1..], q, s);
      } else {
        var rest := if Wild(p[0]) then p else p[1..];
        var n := MatchesSplit(rest, q, s[1..]);
        j := n + 1;
        assert s[..j][0] == s[0] && s[..j][1..] == s[1..][..n] && s[j..] == s[1..][n..];
      }
    }
  }

  /// Several turns.

  predicate InRange(p: string, s: string, st: State) {
    st.i <= |p| && st.j <= |s| && (st.nj > 0 ==> st.ni < |p|)
  }

  // n turns of the loop.
  function Walk(p: string, s: string, beyond: char, st: State, n: nat): (t: Turn)
    requires InRange(p, s, st)
    ensures t.Go? ==> InRange(p, s, t.next)
    decreases n
  {
    if n == 0 then Go(st)
    else match Step(p, s, beyond, st)
      case Go(next) => Walk(p, s, beyond, next, n - 1)
      case end => end
  }

  predicate Running(p: string, s: string, st: State) {
    Apart(p, s) && Inv(p, s, st) && Reach(st) <= |s| + 1
  }

  lemma {:induction false} RunWalk(p: string, s: string, beyond: char, st: State, n: nat, next: State)
    requires Running(p, s, st) && InRange(p, s, st) && Walk(p, s, beyond, st, n) == Go(next)
    ensures Running(p, s, next) && Run(p, s, beyond, st) == Run(p, s, beyond, next)
    decreases n
  {
    hide Step, Apart, Inv, Reach;
    if n > 0 {
      StepKeepsInv(p, s, beyond, st);
      RunWalk(p, s, beyond, Step(p, s, beyond, st).next, n - 1, next);
    }
  }

  lemma {:induction false} WalkOn(p: string, s: string, beyond: char, st: State, m: nat, n: nat)
    requires InRange(p, s, st) && Walk(p, s, beyond, st, m).Go?
    ensures Walk(p, s, beyond, st, m + n) == Walk(p, s, beyond, Walk(p, s, beyond, st, m).next, n)
    decreases m
  {
    if m > 0 { WalkOn(p, s, beyond, Step(p, s, beyond, st).next, m - 1, n); }
  }

  lemma WalkOne(p: string, s: string, beyond: char, st: State)
    requires InRange(p, s, st)
    ensures Walk(p, s, beyond, st, 1) == Step(p, s, beyond, st)
  {
  }

  lemma {:induction false} WalkEnded(p: string, s: string, beyond: char, st: State, n: nat, m: nat)
    requires InRange(p, s, st) && n <= m && !Walk(p, s, beyond, st, n).Go?
    ensures Walk(p, s, beyond, st, m) == Walk(p, s, beyond, st, n)
    decreases n
  {
    if n > 0 && Step(p, s, beyond, st).Go? { WalkEnded(p, s, beyond, Step(p, s, beyond, st).next, n - 1, m - 1); }
  }

  /// Subjects in which wildcards take nothing.

  function Fill(p: string): string {
    if p == "" then "" else if Wild(p[0]) then Fill(p[1..]) else [if p[0] == '?' then 'x' else p[0]] + Fill(p[1..])
  }

  lemma {:induction false} FillConcat(p: string, q: string)
    ensures Fill(p + q) == Fill(p) + Fill(q)
    decreases |p|
  {
    if p == "" {
      assert p + q == q;
    } else {
      assert (p + q)[0] == p[0] && (p + q)[1..] == p[1..] + q;
      FillConcat(p[1..], q);
    }
  }

  lemma {:induction false} FillMatches(p: string)
    ensures Matches(p, Fill(p))
    decreases |p|
  {
    if p != "" {
      FillMatches(p[1..]);
      if !Wild(p[0]) { assert Fill(p)[1..] == Fill(p[1..]); }
    }
  }

  lemma {:induction false} FillIsPlain(p: string)
    ensures forall k :: 0 <= k < |Fill(p)| ==> !Wild(Fill(p)[k])
    decreases |p|
  {
    if p != "" { FillIsPlain(p[1..]); }
  }

  lemma {:induction false} FillIsShort(p: string, s: string)
    requires Matches(p, s)
    ensures |Fill(p)| <= |s|
    decreases |p| + |s|
  {
    if p != "" {
      if !Wild(p[0]) {
        FillIsShort(p[1..], s[1..]);
      } else if Matches(p[1..], s) {
        FillIsShort(p[1..], s);
      } else {
        FillIsShort(p, s[1..]);
      }
    }
  }

  // The walk passes one character of the pattern with each turn, up to place k.
  lemma {:induction false} Along(p: string, s: string, beyond: char, st: State, k: nat, w: string)
    returns (ni: nat, nj: nat)
    requires InRange(p, s, st) && st.i <= k <= |p| && s[st.j..] == Fill(p[st.i..k]) + w && (w == "" || !Wild(w[0]))
    ensures |w| <= |s| && InRange(p, s, State(k, |s| - |w|, ni, nj))
    ensures Walk(p, s, beyond, st, k - st.i) == Go(State(k, |s| - |w|, ni, nj))
    ensures (forall n :: st.i <= n < k ==> !Wild(p[n])) ==> ni == st.ni && nj == st.nj
    decreases k - st.i
  {
    var State(i, j, _, _) := st;
    if i == k {
      assert s[j..] == w;
      ni, nj := st.ni, st.nj;
    } else {
      var rest := p[i..k];
      assert rest[0] == p[i] && rest[1..] == p[i + 1..k];
      FillIsPlain(rest[1..]);
      if Wild(p[i]) {
        assert j < |s| ==> s[j] == s[j..][0] && !Wild(s[j]);
        ni, nj := Along(p, s, beyond, State(i + 1, j, i, j + 1), k, w);
      } else {
        assert s[j..][0] == s[j] && s[j + 1..] == s[j..][1..] == Fill(rest[1..]) + w;
        ni, nj := Along(p, s, beyond, State(i + 1, j + 1, st.ni, st.nj), k, w);
      }
    }
  }

  lemma Straight(p: string, s: string, beyond: char, st: State)
    requires Running(p, s, st) && s[st.j..] == Fill(p[st.i..])
    ensures Run(p, s, beyond, st)
  {
    hide Walk, Apart, Reach;
    assert p[st.i..|p|] == p[st.i..] && Fill(p[st.i..]) + "" == Fill(p[st.i..]);
    var ni, nj := Along(p, s, beyond, st, |p|, "");
    RunWalk(p, s, beyond, st, |p| - st.i, State(|p|, |s|, ni, nj));
  }

  /// Runs of plain characters.

  // The characters from place k up to the next wildcard or the end.
  function RunEnd(p: string, k: nat): (e: nat)
    requires k <= |p|
    ensures k <= e <= |p| && (e < |p| ==> Wild(p[e])) && forall i :: k <= i < e ==> !Wild(p[i])
    decreases |p| - k
  {
    if k == |p| || Wild(p[k]) then k else RunEnd(p, k + 1)
  }

  lemma {:induction false} RunReaches(p: string, k: nat, i: nat)
    requires k <= i <= |p| && forall n :: k <= n < i ==> !Wild(p[n])
    ensures RunEnd(p, k) >= i && (i < |p| && !Wild(p[i]) ==> RunEnd(p, k) > i)
    decreases i - k
  {
    if k < i { RunReaches(p, k + 1, i); }
  }

  lemma SliceOfRest(s: string, a: nat, k: nat)
    requires a + k <= |s|
    ensures s[a..][..k] == s[a..a + k] && s[a..][k..] == s[a + k..]
  {
  }

  lemma NoSlashIn(s: string, a: nat, b: nat, c: nat)
    requires a <= b < c <= |s|
    ensures NoSlash(s[a..c]) ==> s[b] != '/'
  {
    assert s[a..c][b - a] == s[b];
  }
}
