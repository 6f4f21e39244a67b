/** The scanning side of mg_json_get: strings, numbers and the one-pass machine that walks a JSON
    text and a path such as $.a[3].b together. */
module JsonScan {
  // A char stands for one byte of the text.
  const MAX_DEPTH := 30
  const TOO_DEEP := -1
  const INVALID := -2
  const NOT_FOUND := -3

  datatype Answer = Found(offset: int, toklen: int) | Error(code: int)

  predicate Space(c: char) {
    c == ' ' || c == '\t' || c == '\n' || c == '\r'
  }

  /// Strings.

  // json_esc(c, 1): is c one of the characters an escape can stand for?
  predicate Escapable(c: char) {
    c == '\U{8}' || c == '\U{C}' || c == '\n' || c == '\r' || c == '\t' || c == '\\' || c == '"'
  }

  // mg_pass_string: the offset of the closing quote, or INVALID.
  function PassString(s: string): (n: int)
    ensures n == INVALID || 0 <= n < |s|
  {
    if s == "" then INVALID
    else if s[0] == '\\' && |s| > 1 && Escapable(s[1]) then Shift(2, PassString(s[2..]))
    else if s[0] == '\0' then INVALID
    else if s[0] == '"' then 0
    else Shift(1, PassString(s[1..]))
  }

  function Shift(k: nat, n: int): int {
    if n < 0 then n else n + k
  }

  /// Numbers.

  predicate Digit(c: char) {
    '0' <= c <= '9'
  }

  function Value(c: char): int {
    (c as int) - ('0' as int)
  }

  // How many digits s starts with.
  function Digits(s: string): (n: nat)
    ensures n <= |s|
  {
    if s == "" || !Digit(s[0]) then 0 else 1 + Digits(s[1..])
  }

  // The exponent digits: no more are taken once the exponent has reached 308.
  function ExponentDigits(s: string, exp: int): (n: nat)
    ensures n <= |s|
  {
    if s == "" || !Digit(s[0]) || exp >= 308 then 0 else 1 + ExponentDigits(s[1..], exp * 10 + Value(s[0]))
  }

  function Signed(s: string): nat {
    if s != "" && (s[0] == '-' || s[0] == '+') then 1 else 0
  }

  function Fraction(s: string): (n: nat)
    ensures n <= |s|
  {
    if s != "" && s[0] == '.' then 1 + Digits(s[1..]) else 0
  }

  // An optional minus and an optional plus, in that order.
  function ExponentSign(s: string): (n: nat)
    ensures n <= |s|
  {
    var a := if s != "" && s[0] == '-' then 1 else 0;
    a + if a < |s| && s[a] == '+' then 1 else 0
  }

  function Exponent(s: string): (n: nat)
    ensures n <= |s|
  {
    if s != "" && (s[0] == 'e' || s[0] == 'E') then
      var a := 1 + ExponentSign(s[1..]);
      a + ExponentDigits(s[a..], 0)
    else 0
  }

  // The length mg_atod reports.
  function NumberLength(s: string): (n: nat)
    ensures n <= |s|
  {
    var a := Signed(s);
    var b := a + Digits(s[a..]);
    var c := b + Fraction(s[b..]);
    c + Exponent(s[c..])
  }

  /// The machine.

  datatype Expect = WantValue | WantKey | WantColon | WantComma

  // i: offset of the next character. j: where the value in question starts. nesting: the brackets
  // open here. ed: the depth the path has led to. prev, path: the path character just passed, and
  // the rest of the path. ci, ei: current and expected array index.
  datatype Machine = Machine(i: nat, j: nat, nesting: string, ed: int, prev: char, path: string,
                             ci: int, ei: int, want: Expect)

  datatype Result = Return(answer: Answer) | Go(next: Machine, n: nat)

  function Depth(m: Machine): nat {
    |m.nesting|
  }

  // path[pos], with the terminating zero.
  function Next(path: string): char {
    if path == "" then '\0' else path[0]
  }

  // MG_CHECKRET: the path is used up and the value ending here is the one it names.
  predicate Arrived(m: Machine) {
    Depth(m) == m.ed && m.path == "" && m.ci == m.ei
  }

  function Count(m: Machine): Machine {
    if Depth(m) == m.ed && m.ei >= 0 then m.(ci := m.ci + 1) else m
  }

  // The end of a value whose last character is n - 1 ahead.
  function EndValue(m: Machine, n: nat): Result {
    if Arrived(m) then Return(Found(m.j, m.i + n - m.j)) else Go(Count(m).(want := WantComma), n)
  }

  function Pop(m: Machine): Machine
    requires m.nesting != ""
  {
    m.(nesting := m.nesting[..|m.nesting| - 1])
  }

  // A closing bracket.
  function Close(m: Machine, c: char): Result {
    if Depth(m) == m.ed && m.ci != m.ei then Return(Error(NOT_FOUND))
    else if m.nesting == "" || (m.nesting[|m.nesting| - 1] as int) + 2 != c as int then Return(Error(INVALID))
    else EndValue(Pop(m), 1)
  }

  // The decimal index up to the closing bracket, the last character passed, and the rest.
  function PathIndex(path: string, n: int, prev: char): (int, char, string) {
    if path == "" then (n, prev, "")
    else if path[0] == ']' then (n, ']', path[1..])
    else PathIndex(path[1..], n * 10 + Value(path[0]), path[0])
  }

  function OpenObject(m: Machine): Result {
    if Depth(m) >= MAX_DEPTH then Return(Error(TOO_DEEP))
    else
      var e := if Depth(m) == m.ed && Next(m.path) == '.' && m.ci == m.ei
               then m.(ed := m.ed + 1, prev := '.', path := m.path[1..], ci := -1, ei := -1) else m;
      Go(e.(nesting := m.nesting + "{", want := WantKey), 1)
  }

  function OpenArray(m: Machine): Result {
    if Depth(m) >= MAX_DEPTH then Return(Error(TOO_DEEP))
    else
      var e := if Depth(m) == m.ed && Next(m.path) == '[' && m.ei == m.ci
               then
                 var (ei, prev, rest) := PathIndex(m.path[1..], 0, '[');
                 m.(ed := m.ed + 1, prev := prev, path := rest, ci := 0, ei := ei)
               else m;
      Go(e.(nesting := m.nesting + "["), 1)
  }

  function StepValue(was: Machine, t: string): Result
    requires t != ""
  {
    var m := if Depth(was) == was.ed then was.(j := was.i) else was;
    var c := t[0];
    if c == '{' then OpenObject(m)
    else if c == '[' then OpenArray(m)
    else if c == ']' && Depth(m) > 0 then Close(m, c)
    else if c == 't' && |t| > 3 && t[..4] == "true" then EndValue(m, 4)
    else if c == 'n' && |t| > 3 && t[..4] == "null" then EndValue(m, 4)
    else if c == 'f' && |t| > 4 && t[..5] == "false" then EndValue(m, 5)
    else if c == '-' || Digit(c) then EndValue(m, NumberLength(t))
    else if c == '"' then
      var n := PassString(t[1..]);
      if n < 0 then Return(Error(n)) else EndValue(m, n + 2)
    else Return(Error(INVALID))
  }

  // strncmp against the path, and the path's key ends there too.
  predicate KeyMatches(path: string, key: string) {
    |key| <= |path| && path[..|key|] == key
    && (|path| == |key| || path[|key|] == '.' || path[|key|] == '[')
  }

  function PassKey(m: Machine, key: string): Machine {
    if Depth(m) == m.ed && m.prev == '.' && KeyMatches(m.path, key)
    then m.(prev := (if key == "" then m.prev else key[|key| - 1]), path := m.path[|key|..]) else m
  }

  function StepKey(m: Machine, t: string): Result
    requires t != ""
  {
    if t[0] == '"' then
      var n := PassString(t[1..]);
      if n < 0 then Return(Error(n))
      else if Depth(m) < m.ed then Return(Error(NOT_FOUND))
      else if Depth(m) == m.ed && m.prev != '.' then Return(Error(NOT_FOUND))
      else Go(PassKey(m, t[1..1 + n]).(want := WantColon), n + 2)
    else if t[0] == '}' then Close(m, '}')
    else Return(Error(INVALID))
  }

  function StepColon(m: Machine, t: string): Result
    requires t != ""
  {
    if t[0] == ':' then Go(m.(want := WantValue), 1) else Return(Error(INVALID))
  }

  function StepComma(m: Machine, t: string): Result
    requires t != ""
  {
    if m.nesting == "" then Return(Error(INVALID))
    else if t[0] == ',' then
      Go(m.(want := if m.nesting[|m.nesting| - 1] == '{' then WantKey else WantValue), 1)
    else if t[0] == ']' || t[0] == '}' then Close(m, t[0])
    else Return(Error(INVALID))
  }

  // What the character at the front of t leads to; t is not empty and does not start with a space.
  function Step(m: Machine, t: string): (r: Result)
    requires t != ""
    ensures r.Go? ==> 0 < r.n <= |t|
  {
    match m.want
    case WantValue => StepValue(m, t)
    case WantKey => StepKey(m, t)
    case WantColon => StepColon(m, t)
    case WantComma => StepComma(m, t)
  }

  // The rest of the walk, over the characters t still to be read.
  function Run(m: Machine, t: string): Answer
    decreases |t|
  {
    if t == "" then Error(NOT_FOUND)
    else if Space(t[0]) then Run(m.(i := m.i + 1), t[1..])
    else
      match Step(m, t)
      case Return(a) => a
      case Go(next, n) => Run(next.(i := m.i + n), t[n..])
  }

  function Start(path: string): Machine
    requires path != ""
  {
    Machine(0, 0, "", 0, path[0], path[1..], -1, -1, WantValue)
  }

  function Get(json: string, path: string): Answer {
    if path == "" || path[0] != '$' then Error(INVALID) else Run(Start(path), json)
  }
}
