/** JSON documents as trees with their layout, and the span of the value a path names. */
module JsonDoc {
  import opened JsonScan

  datatype Option<T> = None | Some(value: T)

  // -?digits(.digits)?(e sign? digits)?, each run of digits non-empty.
  datatype Number = Number(minus: bool, whole: string, fraction: Option<string>, exponent: Option<(char, string, string)>)

  datatype Scalar = True | False | Null | Num(n: Number) | Str(raw: string)

  // A value; the strings beside values and brackets are white space.
  datatype Json =
    | Atom(a: Scalar)
    | EmptyArray(gap: string)
    | Array(elems: Elems)
    | EmptyObject(gap: string)
    | Object(members: Members)
  datatype Elems =
    | LastElem(before: string, v: Json, after: string)
    | Elem(before: string, v: Json, after: string, more: Elems)
  datatype Members =
    | LastMember(before: string, key: string, gap: string, lead: string, v: Json, after: string)
    | Member(before: string, key: string, gap: string, lead: string, v: Json, after: string, more: Members)

  /// Well-formed documents.

  predicate Blank(s: string) {
    forall k :: 0 <= k < |s| ==> Space(s[k])
  }

  predicate AllDigits(s: string) {
    s != "" && forall k :: 0 <= k < |s| ==> Digit(s[k])
  }

  // mg_atod reads an exponent's digits to the end: it takes no more once the exponent has reached 308.
  predicate ExponentSmall(s: string, exp: int)
    decreases |s|
  {
    s == "" || (exp < 308 && ExponentSmall(s[1..], exp * 10 + Value(s[0])))
  }

  predicate FormedNumber(n: Number) {
    && AllDigits(n.whole)
    && (n.fraction.Some? ==> AllDigits(n.fraction.value))
    && (n.exponent.Some? ==>
          var (e, sign, digits) := n.exponent.value;
          (e == 'e' || e == 'E') && (sign == "" || sign == "-" || sign == "+") && AllDigits(digits))
  }

  predicate LegibleNumber(n: Number) {
    n.exponent.Some? ==> ExponentSmall(n.exponent.value.2, 0)
  }

  // The text between a string's quotes: plain characters, or a backslash and one more.
  predicate GoodRaw(s: string) {
    if s == "" then true
    else if s[0] == '\\' then |s| > 1 && s[1] != '\0' && GoodRaw(s[2..])
    else s[0] != '"' && s[0] != '\0' && GoodRaw(s[1..])
  }

  predicate FormedScalar(a: Scalar) {
    match a
    case Num(n) => FormedNumber(n)
    case Str(raw) => GoodRaw(raw)
    case _ => true
  }

  predicate LegibleScalar(a: Scalar) {
    a.Num? ==> LegibleNumber(a.n)
  }

  // A key that a path can name on its own.
  predicate PlainKey(key: string) {
    GoodRaw(key) && '.' !in key && '[' !in key
  }

  predicate Formed(v: Json) {
    match v
    case Atom(a) => FormedScalar(a)
    case EmptyArray(gap) => Blank(gap)
    case EmptyObject(gap) => Blank(gap)
    case Array(es) => FormedElems(es)
    case Object(ms) => FormedMembers(ms)
  }

  predicate FormedElems(es: Elems) {
    && Blank(es.before) && Formed(es.v) && Blank(es.after)
    && (es.Elem? ==> FormedElems(es.more))
  }

  predicate FormedMembers(ms: Members) {
    && Blank(ms.before) && PlainKey(ms.key) && Blank(ms.gap) && Blank(ms.lead) && Formed(ms.v) && Blank(ms.after)
    && (ms.Member? ==> FormedMembers(ms.more))
  }

  // All numbers can be read to the end.
  predicate Legible(v: Json) {
    match v
    case Atom(a) => LegibleScalar(a)
    case Array(es) => LegibleElems(es)
    case Object(ms) => LegibleMembers(ms)
    case _ => true
  }

  predicate LegibleElems(es: Elems) {
    Legible(es.v) && (es.Elem? ==> LegibleElems(es.more))
  }

  predicate LegibleMembers(ms: Members) {
    Legible(ms.v) && (ms.Member? ==> LegibleMembers(ms.more))
  }

  function Max(a: nat, b: nat): nat {
    if a < b then b else a
  }

  // How deep brackets nest.
  function Nesting(v: Json): nat {
    match v
    case Atom(_) => 0
    case EmptyArray(_) => 1
    case EmptyObject(_) => 1
    case Array(es) => 1 + NestingElems(es)
    case Object(ms) => 1 + NestingMembers(ms)
  }

  function NestingElems(es: Elems): nat {
    Max(Nesting(es.v), if es.Elem? then NestingElems(es.more) else 0)
  }

  function NestingMembers(ms: Members): nat {
    Max(Nesting(ms.v), if ms.Member? then NestingMembers(ms.more) else 0)
  }

  /// Their text.

  function FractionText(n: Number): string {
    if n.fraction.Some? then "." + n.fraction.value else ""
  }

  function ExponentText(n: Number): string {
    if n.exponent.Some? then var (e, sign, digits) := n.exponent.value; [e] + sign + digits else ""
  }

  function NumberText(n: Number): string {
    (if n.minus then "-" else "") + (n.whole + (FractionText(n) + ExponentText(n)))
  }

  function ScalarText(a: Scalar): string {
    match a
    case True => "true"
    case False => "false"
    case Null => "null"
    case Num(n) => NumberText(n)
    case Str(raw) => Quoted(raw)
  }

  function Text(v: Json): string
    decreases v
  {
    match v
    case Atom(a) => ScalarText(a)
    case EmptyArray(gap) => "[" + (gap + "]")
    case EmptyObject(gap) => "{" + (gap + "}")
    case Array(es) => "[" + (ElemsText(es) + "]")
    case Object(ms) => "{" + (MembersText(ms) + "}")
  }

  function ElemsText(es: Elems): string
    decreases es, 1
  {
    es.before + (Text(es.v) + (es.after + MoreElems(es)))
  }

  function MoreElems(es: Elems): string
    decreases es, 0
  {
    if es.Elem? then "," + ElemsText(es.more) else ""
  }

  function Quoted(s: string): string {
    "\"" + s + "\""
  }

  // A member up to its value.
  function KeyText(ms: Members): string {
    ms.before + (Quoted(ms.key) + (ms.gap + (":" + ms.lead)))
  }

  function MembersText(ms: Members): string
    decreases ms, 1
  {
    KeyText(ms) + (Text(ms.v) + (ms.after + MoreMembers(ms)))
  }

  function MoreMembers(ms: Members): string
    decreases ms, 0
  {
    if ms.Member? then "," + MembersText(ms.more) else ""
  }

  /// Paths.

  datatype Item = Key(key: string) | Index(n: nat)

  function Decimal(n: nat): (s: string)
    ensures |s| > 0
  {
    (if n < 10 then "" else Decimal(n / 10)) + [('0' as int + n % 10) as char]
  }

  function PathText(items: seq<Item>): string {
    if items == [] then ""
    else
      (match items[0] case Key(k) => "." + k case Index(n) => "[" + Decimal(n) + "]") + PathText(items[1..])
  }

  // A key in a path has at least one character.
  predicate GoodPath(items: seq<Item>) {
    forall k :: 0 <= k < |items| && items[k].Key? ==> PlainKey(items[k].key) && items[k].key != ""
  }

  // A value and the offset at which its text starts.
  datatype Place = Place(at: nat, v: Json)

  // The value a path leads to, in a value whose text starts at offset `at`; of several members with
  // the same key the first counts.
  function Locate(v: Json, at: nat, items: seq<Item>): Option<Place>
    decreases v, 0
  {
    if items == [] then Some(Place(at, v))
    else match items[0]
      case Key(k) => if v.Object? then LocateMember(v.members, at + 1, k, items[1..]) else None
      case Index(n) => if v.Array? then LocateElem(v.elems, at + 1, n, items[1..]) else None
  }

  function LocateElem(es: Elems, at: nat, n: nat, items: seq<Item>): Option<Place>
    decreases es, 1
  {
    var start := at + |es.before|;
    if n == 0 then Locate(es.v, start, items)
    else if es.LastElem? then None
    else LocateElem(es.more, start + |Text(es.v)| + |es.after| + 1, n - 1, items)
  }

  function LocateMember(ms: Members, at: nat, key: string, items: seq<Item>): Option<Place>
    decreases ms, 1
  {
    var start := at + |KeyText(ms)|;
    if ms.key == key then Locate(ms.v, start, items)
    else if ms.LastMember? then None
    else LocateMember(ms.more, start + |Text(ms.v)| + |ms.after| + 1, key, items)
  }

  /// What is read on the way.

  // All numbers before the value a path leads to, and in it, can be read to the end.
  predicate LegibleTo(v: Json, items: seq<Item>)
    decreases v, 0
  {
    if items == [] then Legible(v)
    else match items[0]
      case Key(k) => v.Object? ==> LegibleToMember(v.members, k, items[1..])
      case Index(n) => v.Array? ==> LegibleToElem(v.elems, n, items[1..])
  }

  predicate LegibleToElem(es: Elems, n: nat, items: seq<Item>)
    decreases es, 1
  {
    if n == 0 then LegibleTo(es.v, items)
    else Legible(es.v) && (es.Elem? ==> LegibleToElem(es.more, n - 1, items))
  }

  predicate LegibleToMember(ms: Members, key: string, items: seq<Item>)
    decreases ms, 1
  {
    if ms.key == key then LegibleTo(ms.v, items)
    else Legible(ms.v) && (ms.Member? ==> LegibleToMember(ms.more, key, items))
  }
}
