/** mg_match accepts too much when a * takes a slash, unless a # in front of it could have taken it as well. */
module GlobTaken {
  import opened Glob
  import opened GlobKept

  // A * whose run begins with what a slash can be, and goes on or is the last: the walk sees only behind
  // the slash that the run does not fit, and lets the * take it.
  predicate Eager(p: string, k: nat)
    requires k < |p|
  {
    && p[k] == '*' && k + 1 < |p| && (p[k + 1] == '/' || p[k + 1] == '?')
    && (RunEnd(p, k + 1) == |p| || RunEnd(p, k + 1) > k + 2)
  }

  // From k back to the nearest # there are only * and single slashes: with all of them, # matches every
  // text that has that many slashes, whatever the * would take.
  predicate Harmless(p: string, k: nat)
    requires k <= |p|
    decreases k
  {
    k > 0
    && (|| p[k - 1] == '#'
        || (p[k - 1] == '*' && Harmless(p, k - 1))
        || (p[k - 1] == '/' && k > 1 && p[k - 2] != '/' && Harmless(p, k - 1)))
  }

  predicate GoodRuns(p: string) {
    forall k :: 0 <= k < |p| && Eager(p, k) ==> Harmless(p, k)
  }

  /// With harmless * taken for #, the walk takes nothing that it should not take.

  function Loose(p: string): string {
    seq(|p|, k requires 0 <= k < |p| => if p[k] == '*' && Harmless(p, k) then '#' else p[k])
  }

  // The first character behind the last wildcard is the one passed there.
  predicate Behind(p: string, s: string, st: State) {
    && Inv(p, s, st)
    && (st.nj > 0 && st.i > st.ni + 1 ==> p[st.ni + 1] == '?' || p[st.ni + 1] == s[st.nj - 1])
  }

  // What is left can be matched, from here or with the last wildcard taking one more.
  predicate CanMatch(l: string, s: string, st: State)
    requires st.i <= |l| && st.j <= |s| && (st.nj > 0 ==> st.ni < |l|)
  {
    || Matches(l[st.i..], s[st.j..])
    || (0 < st.nj <= |s| && (l[st.ni] == '#' || s[st.nj - 1] != '/') && Matches(l[st.ni..], s[st.nj..]))
  }

  lemma BehindStep(p: string, s: string, beyond: char, st: State)
    requires Apart(p, s) && Behind(p, s, st) && Step(p, s, beyond, st).Go?
    ensures Behind(p, s, Step(p, s, beyond, st).next)
  {
    StepKeepsInv(p, s, beyond, st);
  }

  // When the walk goes back to a * that is not harmless, the * takes no slash.
  lemma BackTakesNoSlash(p: string, s: string, beyond: char, st: State)
    requires GoodRuns(p) && Apart(p, s) && Behind(p, s, st)
    requires 0 < st.nj <= |s| && Step(p, s, beyond, st) == Go(State(st.ni, st.nj, st.ni, st.nj))
    requires st.ni < st.i && p[st.ni] == '*' && !Harmless(p, st.ni)
    ensures s[st.nj - 1] != '/'
  {
    hide Harmless;
    var State(i, j, ni, nj) := st;
    assert !Eager(p, ni);
    RunReaches(p, ni + 1, i);
  }

  lemma CanMatchStep(p: string, s: string, beyond: char, st: State)
    requires GoodRuns(p) && Apart(p, s) && Behind(p, s, st) && Step(p, s, beyond, st).Go?
    requires var next := Step(p, s, beyond, st).next; next.i <= |p| && next.j <= |s| && CanMatch(Loose(p), s, next)
    ensures CanMatch(Loose(p), s, st)
  {
    hide Matches, Harmless, GoodRuns;
    var State(i, j, ni, nj) := st;
    var l := Loose(p);
    if i < |p| && j < |s| { assert p[i] in p && s[j] in s; }
    MatchesAt(l, s, i, j);
    if Step(p, s, beyond, st).next == State(ni, nj, ni, nj) && 0 < nj <= |s| && ni < i && l[ni] != '#' {
      BackTakesNoSlash(p, s, beyond, st);
    }
  }

  lemma {:induction false} RunCanMatch(p: string, s: string, beyond: char, st: State)
    requires GoodRuns(p) && Running(p, s, st) && Behind(p, s, st) && Run(p, s, beyond, st)
    ensures CanMatch(Loose(p), s, st)
    decreases |s| + 1 - Reach(st), |p| - st.i + |s| - st.j
  {
    hide GoodRuns, Apart, CanMatch, Loose, Reach;
    match Step(p, s, beyond, st)
    case Accept =>
      LooseLength(p);
      AtTheEnd(Loose(p), s, st);
    case Go(next) =>
      StepKeepsInv(p, s, beyond, st);
      BehindStep(p, s, beyond, st);
      RunCanMatch(p, s, beyond, next);
      CanMatchStep(p, s, beyond, st);
  }

  lemma AtTheEnd(l: string, s: string, st: State)
    requires st.i == |l| && st.j == |s| && (st.nj > 0 ==> st.ni < |l|)
    ensures CanMatch(l, s, st)
  {
    assert l[st.i..] == "" && s[st.j..] == "";
  }

  /// Taking harmless * for # makes no difference.

  function Slashes(s: string): nat {
    if s == "" then 0 else (if s[0] == '/' then 1 else 0) + Slashes(s[1..])
  }

  lemma {:induction false} SlashesConcat(a: string, b: string)
    ensures Slashes(a + b) == Slashes(a) + Slashes(b)
    decreases |a|
  {
    if a == "" {
      assert a + b == b;
    } else {
      assert (a + b)[1..] == a[1..] + b;
      SlashesConcat(a[1..], b);
    }
  }

  // Behind the last slash there is none.
  lemma {:induction false} LastSlash(t: string) returns (k: nat)
    requires Slashes(t) > 0
    ensures k < |t| && t[k] == '/' && NoSlash(t[k + 1..]) && Slashes(t[..k]) + 1 == Slashes(t)
    decreases |t|
  {
    if Slashes(t[1..]) > 0 {
      var n := LastSlash(t[1..]);
      k := n + 1;
      assert t[k + 1..] == t[1..][n + 1..] && t[..k] == [t[0]] + t[1..][..n];
      assert ([t[0]] + t[1..][..n])[1..] == t[1..][..n];
    } else {
      k := 0;
      NoSlashes(t[1..]);
    }
  }

  lemma {:induction false} NoSlashes(t: string)
    requires Slashes(t) == 0
    ensures NoSlash(t)
    decreases |t|
  {
    if t != "" { NoSlashes(t[1..]); }
  }

  // Behind h the pattern q matches every text with that many slashes.
  ghost predicate AllMatch(q: string, h: string, n: nat) {
    forall t: string :: Slashes(t) >= n ==> Matches(q, h + t)
  }

  // What the part of the pattern before i is known to match: behind a # with only * and single slashes
  // since, h and every text with enough slashes; otherwise just x.
  ghost predicate Before(p: string, i: nat, x: string, h: string, n: nat)
    requires i <= |p|
  {
    if !Harmless(p, i) then Matches(p[..i], x)
    else if p[i - 1] != '/' then AllMatch(p[..i], h, n) && h <= x && Slashes(x[|h|..]) >= n
    else && i > 0 && AllMatch(p[..i - 1], h, n) && h <= x && x != h && x[|x| - 1] == '/'
         && Slashes(x[|h|..|x| - 1]) >= n
  }

  lemma TakeOne(p: string, i: nat)
    requires i < |p|
    ensures p[..i + 1] == p[..i] + [p[i]]
  {
  }

  lemma OneMatches(c: char)
    requires !Wild(c) && c != '?'
    ensures Matches([c], [c])
  {
    assert [c][1..] == "";
  }

  lemma AllMatchThis(q: string, h: string, n: nat, x: string)
    requires AllMatch(q, h, n) && h <= x && Slashes(x[|h|..]) >= n
    ensures Matches(q, x)
  {
    assert x == h + x[|h|..];
  }

  lemma BeforeMatches(p: string, i: nat, x: string, h: string, n: nat)
    requires i <= |p| && Before(p, i, x, h, n)
    ensures Matches(p[..i], x)
  {
    hide Matches, Slashes, AllMatch;
    if Harmless(p, i) {
      if p[i - 1] != '/' {
        AllMatchThis(p[..i], h, n, x);
      } else {
        var y := x[..|x| - 1];
        assert y[|h|..] == x[|h|..|x| - 1];
        AllMatchThis(p[..i - 1], h, n, y);
        OneMatches('/');
        MatchesConcat(p[..i - 1], "/", y, "/");
        TakeOne(p, i - 1);
        assert x == y + "/";
      }
    }
  }

  // A * or # behind it adds nothing.
  lemma AllMatchMore(q: string, h: string, n: nat, c: char)
    requires AllMatch(q, h, n) && Wild(c)
    ensures AllMatch(q + [c], h, n)
  {
    hide Matches, Slashes;
    forall t: string | Slashes(t) >= n
      ensures Matches(q + [c], h + t)
    {
      WildAlone(c, "");
      MatchesConcat(q, [c], h + t, "");
      assert h + t + "" == h + t;
    }
  }

  // A slash and then a * or # takes one slash more.
  lemma AllMatchSlash(q: string, h: string, n: nat, c: char)
    requires AllMatch(q, h, n) && Wild(c)
    ensures AllMatch(q + ['/', c], h, n + 1)
  {
    hide Matches, Slashes;
    forall t: string | Slashes(t) >= n + 1
      ensures Matches(q + ['/', c], h + t)
    {
      var k := LastSlash(t);
      OneMatches('/');
      WildAlone(c, t[k + 1..]);
      MatchesConcat("/", [c], "/", t[k + 1..]);
      MatchesConcat(q, ['/', c], h + t[..k], "/" + t[k + 1..]);
      assert "/" + [c] == ['/', c] && h + t == h + t[..k] + ("/" + t[k + 1..]);
    }
  }

  // Just behind a # any text will do.
  lemma AllMatchHash(q: string, h: string)
    requires Matches(q, h)
    ensures AllMatch(q + "#", h, 0)
  {
    hide Matches, Slashes;
    forall t: string
      ensures Matches(q + "#", h + t)
    {
      HashAlone(t);
      MatchesConcat(q, "#", h, t);
    }
  }

  lemma HashAlone(t: string)
    ensures Matches("#", t)
  {
    assert "#"[1..] == "" && t[|t|..] == "";
    HashTakes("#", "", 0);
    HashTakes("#", t, |t|);
  }

  lemma WildAlone(c: char, t: string)
    requires Wild(c) && NoSlash(t)
    ensures Matches([c], t)
  {
    if c == '#' {
      HashAlone(t);
    } else {
      assert [c][1..] == "" && t[|t|..] == "" && t[..|t|] == t;
      StarTakes([c], "", 0);
      StarTakes([c], t, |t|);
    }
  }

  lemma SlashesMore(x: string, y: string, from: nat)
    requires from <= |x|
    ensures Slashes((x + y)[from..]) >= Slashes(x[from..])
  {
    assert (x + y)[from..] == x[from..] + y;
    SlashesConcat(x[from..], y);
  }

  // A * taken for #, or a #, has taken y.
  lemma BeforeLoose(p: string, i: nat, x: string, h: string, n: nat, y: string) returns (h': string, n': nat)
    requires i < |p| && Before(p, i, x, h, n) && (p[i] == '#' || (p[i] == '*' && Harmless(p, i)))
    ensures Before(p, i + 1, x + y, h', n')
  {
    hide Matches, Slashes, AllMatch;
    TakeOne(p, i);
    if !Harmless(p, i) {
      AllMatchHash(p[..i], x);
      h', n' := x, 0;
    } else if p[i - 1] != '/' {
      AllMatchMore(p[..i], h, n, p[i]);
      SlashesMore(x, y, |h|);
      h', n' := h, n;
    } else {
      TakeOne(p, i - 1);
      AllMatchSlash(p[..i - 1], h, n, p[i]);
      assert p[..i - 1] + ['/', p[i]] == p[..i + 1];
      SlashesAtEnd(x, |h|);
      SlashesMore(x, y, |h|);
      h', n' := h, n + 1;
    }
  }

  lemma SlashesAtEnd(x: string, from: nat)
    requires from < |x| && x[|x| - 1] == '/'
    ensures Slashes(x[from..]) == Slashes(x[from..|x| - 1]) + 1
  {
    assert x[from..] == x[from..|x| - 1] + "/";
    SlashesConcat(x[from..|x| - 1], "/");
  }

  // A * that is not harmless has taken y, without a slash.
  lemma BeforeStar(p: string, i: nat, x: string, h: string, n: nat, y: string)
    requires i < |p| && Before(p, i, x, h, n) && p[i] == '*' && !Harmless(p, i) && NoSlash(y)
    ensures Before(p, i + 1, x + y, h, n)
  {
    hide Matches;
    TakeOne(p, i);
    WildAlone('*', y);
    MatchesConcat(p[..i], "*", x, y);
  }

  // A character stands for c.
  lemma BeforePlain(p: string, i: nat, x: string, h: string, n: nat, c: char)
    requires i < |p| && Before(p, i, x, h, n) && !Wild(p[i]) && (p[i] == '?' || p[i] == c)
    ensures Before(p, i + 1, x + [c], h, n)
  {
    hide Matches, Slashes, AllMatch;
    if Harmless(p, i + 1) {
      assert p[..i + 1 - 1] == p[..i] && (x + [c])[|h|..|x + [c]| - 1] == x[|h|..];
    } else {
      BeforeMatches(p, i, x, h, n);
      TakeOne(p, i);
      CharMatches(p[i], c);
      MatchesConcat(p[..i], [p[i]], x, [c]);
    }
  }

  lemma CharMatches(a: char, c: char)
    requires !Wild(a) && (a == '?' || a == c)
    ensures Matches([a], [c])
  {
    assert [a][1..] == "" && [c][1..] == "";
  }

  lemma {:induction false} Tightens(p: string, i: nat, x: string, h: string, n: nat, y: string)
    requires i <= |p| && Before(p, i, x, h, n) && Matches(Loose(p)[i..], y)
    ensures Matches(p, x + y)
    decreases |p| - i
  {
    hide Matches, Before, Harmless;
    var l := Loose(p);
    MatchesAt(l, y, i, 0);
    assert y[0..] == y;
    if i == |p| {
      BeforeMatches(p, i, x, h, n);
      assert p[..i] == p && y == "" && x + y == x;
    } else if Wild(p[i]) {
      assert l[i..][1..] == l[i + 1..];
      var k: nat;
      if l[i] == '#' {
        k := HashTook(l[i..], y);
        var h', n' := BeforeLoose(p, i, x, h, n, y[..k]);
        Tightens(p, i + 1, x + y[..k], h', n', y[k..]);
      } else {
        k := StarTook(l[i..], y);
        BeforeStar(p, i, x, h, n, y[..k]);
        Tightens(p, i + 1, x + y[..k], h, n, y[k..]);
      }
      assert x + y[..k] + y[k..] == x + y;
    } else {
      BeforePlain(p, i, x, h, n, y[0]);
      Tightens(p, i + 1, x + [y[0]], h, n, y[1..]);
      assert x + [y[0]] + y[1..] == x + y;
    }
  }

  lemma LooseIsTight(p: string, s: string)
    requires Matches(Loose(p), s)
    ensures Matches(p, s)
  {
    assert p[..0] == "" && Loose(p)[0..] == Loose(p) && "" + s == s;
    assert Before(p, 0, "", "", 0);
    Tightens(p, 0, "", "", 0, s);
  }

  predicate TakesNothing(p: string, s: string, beyond: char) {
    Apart(p, s) && Run(p, s, beyond, Start()) ==> Matches(p, s)
  }

  // For every pattern: nothing is accepted that does not match, if each * whose run begins with a slash or
  // a ? and goes on, or is the last, is harmless.
  lemma NothingTaken(p: string, s: string, beyond: char)
    requires GoodRuns(p)
    ensures TakesNothing(p, s, beyond)
  {
    hide Run, Matches, GoodRuns, Apart, Loose;
    if Apart(p, s) && Run(p, s, beyond, Start()) {
      RunCanMatch(p, s, beyond, Start());
      assert |Loose(p)| == |p| by { LooseLength(p); }
      assert Loose(p)[0..] == Loose(p) && s[0..] == s;
      LooseIsTight(p, s);
    }
  }

  lemma LooseLength(p: string)
    ensures |Loose(p)| == |p|
  {
  }

  /// Otherwise: a subject in which the * takes slashes that nothing else can take.

  function Beads(c: char, n: nat): string {
    if n == 0 then [c] else [c, '/'] + Beads(c, n - 1)
  }

  lemma {:induction false} BeadsAre(c: char, n: nat)
    ensures |Beads(c, n)| == 2 * n + 1
    ensures forall k :: 0 <= k <= 2 * n ==> Beads(c, n)[k] == if k % 2 == 0 then c else '/'
    decreases n
  {
    if n > 0 {
      BeadsAre(c, n - 1);
      assert forall k :: 2 <= k <= 2 * n ==> Beads(c, n)[k] == Beads(c, n - 1)[k - 2];
    }
  }

  lemma {:induction false} BeadsSlashes(c: char, n: nat)
    requires c != '/'
    ensures |Beads(c, n)| == 2 * n + 1 && Slashes(Beads(c, n)[..2 * n]) == n && Slashes(Beads(c, n)) == n
    decreases n
  {
    if n > 0 {
      BeadsSlashes(c, n - 1);
      var b := Beads(c, n - 1);
      SlashesConcat([c, '/'], b);
      SlashesConcat([c, '/'], b[..2 * (n - 1)]);
      assert Slashes([c, '/']) == 1 by { TwoBeads(c); }
      assert Beads(c, n)[..2 * n] == [c, '/'] + b[..2 * (n - 1)];
    }
  }

  lemma TwoBeads(c: char)
    requires c != '/'
    ensures Slashes([c, '/']) == 1
  {
    assert [c, '/'][1..] == "/" && "/"[1..] == "";
  }

  function Taking(p: string, k: nat, c: char): string
    requires k < |p|
  {
    Fill(p[..k]) + (Beads(c, |p| + 1) + Fill(p[k + 1..]))
  }

  // c tells the run of the * at k from what it takes.
  predicate Tells(p: string, k: nat, c: char)
    requires k < |p|
  {
    !Wild(c) && c != '/' && c != '?' && (k + 2 < |p| ==> p[k + 2] != c)
  }

  lemma TakingApart(p: string, k: nat, c: char)
    requires k < |p| && Tells(p, k, c)
    ensures Apart(p, Taking(p, k, c))
  {
    FillIsPlain(p[..k]);
    FillIsPlain(p[k + 1..]);
    BeadsAre(c, |p| + 1);
  }

  // The walk comes to the *, which takes the beads one after another.
  lemma TakingIsAccepted(p: string, k: nat, c: char, beyond: char)
    requires '?' !in p && k < |p| && Eager(p, k) && Tells(p, k, c) && Apart(p, Taking(p, k, c))
    ensures Run(p, Taking(p, k, c), beyond, Start())
  {
    hide Run, Fill, Walk, Apart, Beads, RunEnd;
    var s, b, rest := Taking(p, k, c), Beads(c, |p| + 1), Fill(p[k + 1..]);
    BeadsAre(c, |p| + 1);
    assert p[0..k] == p[..k] && s[0..] == s;
    var ni, nj := Along(p, s, beyond, Start(), k, b + rest);
    RunWalk(p, s, beyond, Start(), k, State(k, |s| - |b + rest|, ni, nj));
    var j := |s| - |b + rest|;
    assert s[j..] == b + rest;
    OverBeads(p, s, beyond, State(k, j, ni, nj), k, c, |p| + 1, rest);
    var again := State(k, j + |b|, k, j + |b|);
    assert s[j..][|b|..] == s[j + |b|..] && Fill(p[k..]) == rest by { FillStar(p, k); }
    Straight(p, s, beyond, again);
  }

  lemma FillStar(p: string, k: nat)
    requires k < |p| && p[k] == '*'
    ensures Fill(p[k..]) == Fill(p[k + 1..])
  {
    assert p[k..][0] == '*' && p[k..][1..] == p[k + 1..];
  }

  lemma {:induction false} OverBeads(p: string, s: string, beyond: char, st: State, k: nat, c: char, n: nat,
                                     rest: string)
    requires '?' !in p && k < |p| && Eager(p, k) && Tells(p, k, c)
    requires Running(p, s, st) && st.i == k && s[st.j..] == Beads(c, n) + rest
    ensures var next := State(k, st.j + 2 * n + 1, k, st.j + 2 * n + 1);
            Running(p, s, next) && Run(p, s, beyond, st) == Run(p, s, beyond, next)
    decreases n
  {
    hide Run, RunEnd;
    var j := st.j;
    BeadsAre(c, n);
    assert s[j..][0] == s[j] == c;
    assert p[k + 1] in p;
    if k + 2 < |p| {
      RunGoesOn(p, k);
      assert p[k + 2] in p;
    }
    TurnTo(p, s, beyond, st, State(k + 1, j, k, j + 1));
    TurnTo(p, s, beyond, State(k + 1, j, k, j + 1), State(k, j + 1, k, j + 1));
    if n > 0 {
      assert s[j..][1] == s[j + 1] == '/' && s[j..][2] == s[j + 2] == c;
      assert s[j..][2..] == s[j + 2..] == Beads(c, n - 1) + rest;
      TurnTo(p, s, beyond, State(k, j + 1, k, j + 1), State(k + 1, j + 1, k, j + 2));
      TurnTo(p, s, beyond, State(k + 1, j + 1, k, j + 2), State(k + 2, j + 2, k, j + 2));
      TurnTo(p, s, beyond, State(k + 2, j + 2, k, j + 2), State(k, j + 2, k, j + 2));
      OverBeads(p, s, beyond, State(k, j + 2, k, j + 2), k, c, n - 1, rest);
    }
  }

  lemma RunGoesOn(p: string, k: nat)
    requires k + 2 < |p| && Eager(p, k)
    ensures !Wild(p[k + 2])
  {
  }

  lemma TurnTo(p: string, s: string, beyond: char, st: State, next: State)
    requires Running(p, s, st) && Step(p, s, beyond, st) == Go(next)
    ensures Running(p, s, next) && Run(p, s, beyond, st) == Run(p, s, beyond, next)
  {
    StepKeepsInv(p, s, beyond, st);
  }

  /// It does not match.

  lemma BeadsAt(p: string, k: nat, c: char)
    requires k < |p|
    ensures var s, a := Taking(p, k, c), |Fill(p[..k])|; var d := a + 2 * (|p| + 1);
            && |s| == d + 1 + |Fill(p[k + 1..])|
            && forall i :: a <= i <= d ==> s[i] == if (i - a) % 2 == 0 then c else '/'
  {
    hide Fill;
    BeadsAre(c, |p| + 1);
    var a, b := |Fill(p[..k])|, Beads(c, |p| + 1);
    assert forall i :: a <= i < a + |b| ==> Taking(p, k, c)[i] == b[i - a];
  }

  // Whatever follows the * can only stand at its own place ...
  lemma RunStands(p: string, k: nat, c: char, at: nat)
    requires '?' !in p && k < |p| && Eager(p, k) && Tells(p, k, c)
    requires |Fill(p[..k])| <= at <= |Taking(p, k, c)| && Matches(p[k + 1..], Taking(p, k, c)[at..])
    ensures at == |Fill(p[..k])| + 2 * (|p| + 1) + 1
  {
    hide Matches, Fill, Beads, RunEnd, Taking, Eager;
    var s := Taking(p, k, c);
    BeadsAt(p, k, c);
    FillIsShort(p[k + 1..], s[at..]);
    SlashAhead(p, k, s[at..]);
    assert s[at..][0] == s[at] && (|s[at..]| > 1 ==> s[at..][1] == s[at + 1]);
  }

  lemma SlashNotTaken(s: string, a: nat, b: nat, c: nat)
    requires a <= c <= |s| && b < c && NoSlash(s[a..c]) && s[b] == '/'
    ensures a > b
  {
    assert forall i :: a <= i < c ==> s[a..c][i - a] == s[i];
  }

  // ... and the * in front of it only take the last bead.
  lemma WhereItStands(p: string, k: nat, c: char) returns (j: nat)
    requires '?' !in p && k < |p| && Eager(p, k) && Tells(p, k, c) && Matches(p, Taking(p, k, c))
    ensures var s, d := Taking(p, k, c), |Fill(p[..k])| + 2 * (|p| + 1);
            |s| >= d + 1 && d <= j <= d + 1 && Matches(p[..k], s[..j])
  {
    hide Matches, Fill, Beads, RunEnd, Taking, NoSlash;
    var s, d, rest := Taking(p, k, c), |Fill(p[..k])| + 2 * (|p| + 1), p[k + 1..];
    assert p == p[..k] + p[k..] && p[k..][0] == '*' && p[k..][1..] == rest;
    BeadsAt(p, k, c);
    j := MatchesSplit(p[..k], p[k..], s);
    FillIsShort(p[..k], s[..j]);
    var n := StarTook(p[k..], s[j..]);
    SliceOfRest(s, j, n);
    RunStands(p, k, c, j + n);
    SlashNotTaken(s, j, d - 1, j + n);
  }

  // The run behind the * begins with a slash, and either it goes on, not with c, or the text ends.
  lemma SlashAhead(p: string, k: nat, t: string)
    requires '?' !in p && k < |p| && Eager(p, k) && Matches(p[k + 1..], t)
    ensures t != "" && t[0] == '/' && (if k + 2 < |p| then |t| > 1 && t[1] == p[k + 2] else |t| == 1)
  {
    hide Matches;
    assert p[k + 1] in p;
    MatchesUnfold(p[k + 1..], t);
    assert p[k + 1..][1..] == p[k + 2..];
    MatchesUnfold(p[k + 2..], t[1..]);
    if k + 2 < |p| {
      RunGoesOn(p, k);
      assert p[k + 2] in p;
    }
  }

  // No slash is taken where there is no #.
  lemma {:induction false} MatchesSlashes(p: string, s: string)
    requires '?' !in p && '#' !in p && Matches(p, s)
    ensures Slashes(p) == Slashes(s)
    decreases |p| + |s|
  {
    if p != "" {
      assert p[0] in p;
      if p[0] == '*' {
        if Matches(p[1..], s) { MatchesSlashes(p[1..], s); } else { MatchesSlashes(p, s[1..]); }
      } else {
        MatchesSlashes(p[1..], s[1..]);
      }
    }
  }

  lemma {:induction false} FewSlashes(p: string)
    ensures Slashes(p) <= |p|
    decreases |p|
  {
    if p != "" { FewSlashes(p[1..]); }
  }

  // A * or the first slash of its run of slashes.
  predicate Single(p: string, z: nat)
    requires 0 < z < |p|
  {
    p[z] == '*' || (p[z] == '/' && p[z - 1] != '/')
  }

  lemma {:induction false} HarmlessFrom(p: string, m: nat, k: nat)
    requires m < k <= |p| && p[m] == '#'
    requires forall z :: m < z < k ==> Single(p, z)
    ensures Harmless(p, k)
    decreases k
  {
    if m + 1 < k {
      assert Single(p, k - 1);
      HarmlessFrom(p, m, k - 1);
    }
  }

  lemma {:induction false} LastHash(p: string, k: nat) returns (m: nat)
    requires k <= |p| && '#' in p[..k]
    ensures m < k && p[m] == '#' && '#' !in p[m + 1..k]
    decreases k
  {
    TakeOne(p, k - 1);
    if p[k - 1] == '#' {
      m := k - 1;
    } else {
      m := LastHash(p, k - 1);
      assert p[m + 1..k] == p[m + 1..k - 1] + [p[k - 1]];
    }
  }

  // What makes a * harmful when there is a # in front of it: a character other than a slash, or two slashes.
  predicate Harms(p: string, m: nat, z: nat, k: nat) {
    && m < z < k <= |p| && p[z] != '*'
    && (p[z] == '/' ==> m < z - 1 && p[z - 1] == '/')
  }

  lemma WhyHarmful(p: string, m: nat, k: nat) returns (z: nat)
    requires m < k <= |p| && p[m] == '#' && !Harmless(p, k)
    ensures Harms(p, m, z, k)
  {
    hide Harmless;
    if forall z :: m < z < k ==> Single(p, z) {
      HarmlessFrom(p, m, k);
    } else {
      z :| m < z < k && !Single(p, z);
    }
  }

  // A literal of the pattern, and one right behind it, stand somewhere in the text.
  lemma LiteralStands(q: string, z: nat, t: string) returns (y: nat)
    requires z < |q| && !Wild(q[z]) && q[z] != '?' && Matches(q, t)
    ensures y < |t| && t[y] == q[z]
    ensures z + 1 < |q| && !Wild(q[z + 1]) && q[z + 1] != '?' ==> y + 1 < |t| && t[y + 1] == q[z + 1]
  {
    hide Matches;
    assert q == q[..z] + q[z..];
    y := MatchesSplit(q[..z], q[z..], t);
    MatchesAt(q, t, z, y);
    if z + 1 < |q| { MatchesAt(q, t, z + 1, y + 1); }
  }

  // Neither stands among the beads.
  lemma NotAmongBeads(p: string, m: nat, z: nat, k: nat, c: char, t: string)
    requires Harms(p, m, z, k) && '#' !in p[m + 1..k] && '?' !in p && c != p[z]
    requires forall i :: 0 <= i < |t| ==> t[i] == c || t[i] == '/'
    requires c != '/' && forall i :: 0 <= i < |t| - 1 ==> t[i] == '/' ==> t[i + 1] != '/'
    ensures !Matches(p[m + 1..k], t)
  {
    hide Matches;
    var q := p[m + 1..k];
    assert q[z - m - 1] == p[z] && p[z] in q && p[z] in p;
    if Matches(q, t) {
      if p[z] == '/' {
        assert q[z - m - 2] == p[z - 1] == '/';
        var y := LiteralStands(q, z - m - 2, t);
      } else {
        var y := LiteralStands(q, z - m - 1, t);
      }
    }
  }

  // The beads in front of the run hold more slashes than the pattern.
  lemma ManySlashes(p: string, k: nat, c: char, j: nat, l: nat)
    requires k < |p| && c != '/'
    requires var a := |Fill(p[..k])|; l <= a && a + 2 * (|p| + 1) <= j <= a + 2 * (|p| + 1) + 1 <= |Taking(p, k, c)|
    ensures Slashes(Taking(p, k, c)[l..j]) > |p|
  {
    hide Fill;
    var f, b := Fill(p[..k]), Beads(c, |p| + 1);
    BeadsSlashes(c, |p| + 1);
    BeadsAre(c, |p| + 1);
    assert b[..2 * (|p| + 1) + 1] == b;
    assert Taking(p, k, c)[l..j] == f[l..] + b[..j - |f|];
    SlashesConcat(f[l..], b[..j - |f|]);
  }

  // With no # in front of the * there are too many slashes for what stands in front of it ...
  lemma NoMatchWithoutHash(p: string, k: nat, c: char)
    requires '?' !in p && k < |p| && Eager(p, k) && Tells(p, k, c) && '#' !in p[..k]
    ensures !Matches(p, Taking(p, k, c))
  {
    hide Matches, Fill, Slashes, Beads, RunEnd;
    var s := Taking(p, k, c);
    if Matches(p, s) {
      var j := WhereItStands(p, k, c);
      assert s[0..j] == s[..j];
      ManySlashes(p, k, c, j, 0);
      FewSlashesMatched(p[..k], s[..j]);
    }
  }

  lemma FewSlashesMatched(q: string, t: string)
    requires '?' !in q && '#' !in q && Matches(q, t)
    ensures Slashes(t) <= |q|
  {
    MatchesSlashes(q, t);
    FewSlashes(q);
  }

  // ... and with one what stands behind it does not fit the beads.
  lemma NoMatchWithHash(p: string, k: nat, c: char, m: nat, z: nat)
    requires '?' !in p && k < |p| && Eager(p, k) && Tells(p, k, c)
    requires Harms(p, m, z, k) && p[m] == '#' && '#' !in p[m + 1..k] && c != p[z]
    ensures !Matches(p, Taking(p, k, c))
  {
    hide Matches, Fill, Slashes, Beads, RunEnd, Taking, Eager;
    var s, q := Taking(p, k, c), p[m + 1..k];
    if Matches(p, s) {
      var j := WhereItStands(p, k, c);
      assert p[..k] == p[..m + 1] + q by { CutAt(p, m, k); }
      var l := MatchesSplit(p[..m + 1], q, s[..j]);
      assert s[..j][l..] == s[l..j];
      NoQuestions(p, m + 1, k);
      FewSlashesMatched(q, s[l..j]);
      if l <= |Fill(p[..k])| {
        ManySlashes(p, k, c, j, l);
      } else {
        AmongBeads(p, k, c, j, l);
        NotAmongBeads(p, m, z, k, c, s[l..j]);
      }
    }
  }

  lemma CutAt(p: string, m: nat, k: nat)
    requires m < k <= |p|
    ensures p[..k] == p[..m + 1] + p[m + 1..k]
  {
  }

  lemma NoQuestions(p: string, a: nat, b: nat)
    requires a <= b <= |p| && '?' !in p
    ensures '?' !in p[a..b]
  {
  }

  lemma AmongBeads(p: string, k: nat, c: char, j: nat, l: nat)
    requires k < |p| && c != '/' && |Fill(p[..k])| < l <= j <= |Fill(p[..k])| + 2 * (|p| + 1) + 1 <= |Taking(p, k, c)|
    ensures var t := Taking(p, k, c)[l..j];
            && (forall i :: 0 <= i < |t| ==> t[i] == c || t[i] == '/')
            && (forall i :: 0 <= i < |t| - 1 ==> t[i] == '/' ==> t[i + 1] != '/')
  {
    hide Taking;
    BeadsAt(p, k, c);
    assert forall i :: 0 <= i < j - l ==> Taking(p, k, c)[l..j][i] == Taking(p, k, c)[l + i];
  }

  // A character of three that is neither of two.
  function Third(a: char, b: char): char {
    if a != 'x' && b != 'x' then 'x' else if a != 'y' && b != 'y' then 'y' else 'z'
  }

  // For patterns without ? that is exact: otherwise some subject is accepted that does not match.
  lemma TakesNothingExactly(p: string)
    requires '?' !in p
    ensures GoodRuns(p) <==> forall s: string, beyond: char :: TakesNothing(p, s, beyond)
  {
    hide Run, Matches, Apart, Eager, Harmless, Fill, Beads;
    if GoodRuns(p) {
      forall s: string, beyond: char
        ensures TakesNothing(p, s, beyond)
      {
        NothingTaken(p, s, beyond);
      }
    } else {
      var k: nat :| k < |p| && Eager(p, k) && !Harmless(p, k);
      var s := TakenFrom(p, k);
      assert !TakesNothing(p, s, '/');
    }
  }

  lemma TakenFrom(p: string, k: nat) returns (s: string)
    requires '?' !in p && k < |p| && Eager(p, k) && !Harmless(p, k)
    ensures Apart(p, s) && Run(p, s, '/', Start()) && !Matches(p, s)
  {
    hide Run, Matches, Apart, Eager, Harmless, Fill, Beads;
    var after := if k + 2 < |p| then p[k + 2] else 'x';
    var hash, m, z := '#' in p[..k], 0, 0;
    if hash {
      m := LastHash(p, k);
      z := WhyHarmful(p, m, k);
    }
    var c := Third(after, p[z]);
    TakingApart(p, k, c);
    TakingIsAccepted(p, k, c, '/');
    if hash { NoMatchWithHash(p, k, c, m, z); } else { NoMatchWithoutHash(p, k, c); }
    s := Taking(p, k, c);
  }

  /// Both together.

  predicate ExactOn(p: string, s: string, beyond: char) {
    Apart(p, s) ==> (Run(p, s, beyond, Start()) <==> Matches(p, s))
  }

  lemma ExactOnBoth(p: string)
    ensures (forall s: string, beyond: char :: ExactOn(p, s, beyond))
            <==> (forall s: string, beyond: char :: LosesNothing(p, s, beyond))
                 && (forall s: string, beyond: char :: TakesNothing(p, s, beyond))
  {
    hide Run, Matches, Apart;
    assert forall s: string, beyond: char ::
        ExactOn(p, s, beyond) <==> LosesNothing(p, s, beyond) && TakesNothing(p, s, beyond);
  }

  // For every pattern of plain characters, * and #: the walk answers as the pattern is meant, on every
  // subject apart from it, if and only if its * and its runs are good.
  lemma ExactPatterns(p: string)
    requires '?' !in p
    ensures GoodStars(p) && GoodRuns(p) <==> forall s: string, beyond: char :: ExactOn(p, s, beyond)
  {
    hide GoodStars, GoodRuns, ExactOn, LosesNothing, TakesNothing;
    NeverAsks(p);
    LosesNothingExactly(p);
    TakesNothingExactly(p);
    ExactOnBoth(p);
  }

  // With ? as well the two conditions are enough, and so is a pattern without * or a subject without a slash.
  // In any case what is accepted matches with * taken for #.
  lemma MatchIsExact(p: string, s: string, beyond: char)
    requires Apart(p, s)
    ensures Run(p, s, beyond, Start()) ==> Fits(p, s)
    ensures '*' !in p || '/' !in s || (GoodStars(p) && GoodRuns(p)) ==> (Run(p, s, beyond, Start()) <==> Matches(p, s))
  {
    hide Run, Matches, Fits, GoodStars, GoodRuns, Apart;
    SlashlessIsExact(p, s, beyond);
    if GoodStars(p) && GoodRuns(p) {
      NothingLost(p, s, beyond);
      NothingTaken(p, s, beyond);
    }
  }

  // Without # that is to say: no run behind a * begins with a slash and is the last one or longer than the
  // slash.
  lemma StarsAreExact(p: string)
    requires '?' !in p && '#' !in p
    ensures (forall k :: 0 <= k < |p| ==> !Eager(p, k)) <==> forall s: string, beyond: char :: ExactOn(p, s, beyond)
  {
    hide ExactOn, Eager;
    ExactPatterns(p);
    assert GoodStars(p) by { NothingCrosses(p); }
    forall k | 0 <= k < |p|
      ensures !Harmless(p, k)
    {
      NoHashNoHarmless(p, k);
    }
  }

  lemma NothingCrosses(p: string)
    requires '?' !in p && '#' !in p
    ensures GoodStars(p)
  {
    NeverAsks(p);
    forall k | 0 <= k < |p|
      ensures !Crossed(p, k)
    {
    }
  }

  lemma {:induction false} NoHashNoHarmless(p: string, k: nat)
    requires '#' !in p && k <= |p|
    ensures !Harmless(p, k)
    decreases k
  {
    if k > 0 {
      assert p[k - 1] in p;
      NoHashNoHarmless(p, k - 1);
    }
  }

  /// Inputs.

  // * takes a slash when the mismatch comes later: */b accepts /x/b, though * takes no slash ...
  lemma StarTakesSlash(beyond: char)
    ensures Run("*/b", "/x/b", beyond, Start()) && !Matches("*/b", "/x/b")
  {
    var p, s := "*/b", "/x/b";
    assert Step(p, s, beyond, State(0, 2, 0, 2)) == Go(State(1, 2, 0, 3));
    assert Run(p, s, beyond, State(1, 2, 0, 3)) == Run(p, s, beyond, State(2, 3, 0, 3)) == true;
    assert Run(p, s, beyond, State(0, 1, 0, 1)) == Run(p, s, beyond, State(1, 1, 0, 2)) == true;
    assert Run(p, s, beyond, State(1, 0, 0, 1)) == Run(p, s, beyond, State(2, 1, 0, 1));
  }

  // ... and when a ? has taken it first: *?b accepts /xb.
  lemma QuestionTakesSlash(beyond: char)
    ensures Run("*?b", "/xb", beyond, Start()) && !Matches("*?b", "/xb")
  {
    var p, s := "*?b", "/xb";
    assert Run(p, s, beyond, State(1, 1, 0, 2))
        == Run(p, s, beyond, State(2, 2, 0, 2)) == Run(p, s, beyond, State(3, 3, 0, 2));
    assert Run(p, s, beyond, State(2, 1, 0, 1))
        == Run(p, s, beyond, State(0, 1, 0, 1)) == Run(p, s, beyond, State(1, 1, 0, 2));
    assert Run(p, s, beyond, State(1, 0, 0, 1)) == Run(p, s, beyond, State(2, 1, 0, 1));
    MatchesUnfold(p, s);
    MatchesUnfold("?b", s);
    MatchesUnfold("b", "xb");
    assert p[1..] == "?b" && "?b"[1..] == "b" && s[1..] == "xb";
  }
}
