/** The allocator of device identifiers, run by one caller at a time: the list of registered
    identifiers and, for each device type, the set of codes in use. */
module GbId {
  import opened GbCode

  const KNOWN: set<int> := {111, 113, 114, 117, 118, 131, 132, 200, 214, 215, 216, 217}

  // em_node_type_max
  const TYPE_MAX := 218

  // strLocalGBID, m_GBIDList and the handle sets of mDevCodeSeq.
  datatype State = State(local: string, ids: set<string>, handles: map<int, set<nat>>)

  ghost predicate Valid(s: State) {
    s.handles.Keys == KNOWN
  }

  function Fresh(): State {
    State("", {}, map t | t in KNOWN :: {})
  }

  predicate SameDomain(local: string, gbid: string) {
    |local| == 20 && |gbid| == 20 && local[..10] == gbid[..10]
  }

  function WithCode(handles: map<int, set<nat>>, t: int, c: nat): map<int, set<nat>> {
    if t > 0 && t in handles then handles[t := handles[t] + {c}] else handles
  }

  function WithoutCode(handles: map<int, set<nat>>, t: int, c: nat): map<int, set<nat>> {
    if t > 0 && t in handles then handles[t := handles[t] - {c}] else handles
  }

  // AddDevCodeID
  function Add(s: State, gbid: string): State {
    if |gbid| != 20 then s
    else
      State(s.local, s.ids + {gbid},
            if SameDomain(s.local, gbid) then WithCode(s.handles, TypeOf(gbid), CodeOf(gbid)) else s.handles)
  }

  // DelDevCodeID
  function Del(s: State, gbid: string): State {
    if |gbid| != 20 then s
    else
      State(s.local, s.ids - {gbid},
            if SameDomain(s.local, gbid) then WithoutCode(s.handles, TypeOf(gbid), CodeOf(gbid)) else s.handles)
  }

  // Which type's codes CreateDevCode takes, and from where: the alarm type, and every other it does not
  // list, count as the extension type.
  function Family(devType: int): (t: int)
    ensures t in KNOWN
  {
    if devType in KNOWN - {117} then devType else 217
  }

  function FirstCode(devType: int): nat {
    if devType == 118 then 0x46555F00 + 1
    else if devType == 132 then 0x4EAD9A00 + 1
    else if devType == 214 then 0x7F8DCF00 + 1
    else if devType == 200 then 0x77359400 + 1
    else if devType == 216 then 0x80BEFC00 + 1
    else if devType == 111 then 0x42294180 + 1
    else if devType == 114 then 0x43F30500 + 1
    else if devType == 113 then 0x435A6E80 + 1
    else if devType == 131 then 0x4E150380 + 1
    else if devType == 215 then 0x80266580 + 1
    else 0x81579280 + 1
  }

  lemma FirstCodeIs(devType: int)
    ensures FirstCode(devType) == Family(devType) * BAND + 1
  {
  }

  // The search in GetGBCodeSeq_R.
  function Seek(handles: set<nat>, n: nat, h: nat): nat
    decreases h + 0x98967E + 2 - n
  {
    if n !in handles then n else if n > 0x98967E + h then 0 else Seek(handles, n + 1, h)
  }

  function LeastFree(handles: set<nat>, h: nat): nat {
    Seek(handles, h, h)
  }

  // The least free code of a window of ten million, or 0 when there is none.
  lemma {:induction false} SeekIsLeast(handles: set<nat>, n: nat, h: nat)
    requires 0 < h <= n <= h + 9_999_999 && (forall k :: h <= k < n ==> k in handles)
    ensures var c := Seek(handles, n, h);
            if forall k :: h <= k <= h + 9_999_999 ==> k in handles then c == 0
            else h <= c <= h + 9_999_999 && c !in handles && forall k :: h <= k < c ==> k in handles
    decreases h + 9_999_999 - n
  {
    if n in handles && n <= 0x98967E + h { SeekIsLeast(handles, n + 1, h); }
  }

  // CreateDevCode: the new identifier, or "".
  function Create(s: State, devType: int): (State, string)
    requires Valid(s)
  {
    if devType <= 0 || devType >= TYPE_MAX then (s, "")
    else
      var t := Family(devType);
      var c := LeastFree(s.handles[t], FirstCode(devType));
      var taken := if c > 0 then s.handles[t := s.handles[t] + {c}] else s.handles;
      if c > 0 && |s.local| == 20 then
        var id := Id(s.local, c);
        (State(s.local, s.ids + {id}, taken), id)
      else (s.(handles := taken), "")
  }

  function Id(local: string, c: nat): string
    requires |local| == 20
  {
    local[..10] + Digits(c)
  }

  // SetLocalGBID
  function SetLocal(s: State, id: string): State {
    if |id| != 20 || s.local == id then s
    else
      Add(Released(s).(local := id), id)
  }

  function Released(s: State): State {
    if |s.local| == 20 then s.(handles := WithoutCode(s.handles, TypeOf(s.local), CodeOf(s.local))) else s
  }

  /// The index agrees with the registry: a ten-digit code in the band of a known type is in use exactly
  /// when the identifier with that code in the local domain is registered.

  ghost predicate InBand(c: nat) {
    TenDigits(c) && c / BAND in KNOWN
  }

  ghost predicate Agree(s: State) {
    && Valid(s) && |s.local| == 20
    && forall c: nat :: InBand(c) ==> (c in s.handles[c / BAND] <==> Id(s.local, c) in s.ids)
  }

  lemma IdIs(local: string, gbid: string, c: nat)
    requires |local| == 20 && |gbid| == 20 && TenDigits(c)
    ensures |Id(local, c)| == 20
    ensures gbid == Id(local, c) <==> SameDomain(local, gbid) && CodeOf(gbid) == c && TypeOf(gbid) == c / BAND
    ensures SameDomain(local, gbid) && CodeOf(gbid) == c ==> gbid == Id(local, c)
  {
    hide StringToUll, StringToInt, Digits;
    TenDigitsAre(c);
    CodeExact(gbid[10..20], c);
    assert gbid == gbid[..10] + gbid[10..20] && gbid[10..20][..3] == gbid[10..13];
    assert Id(local, c)[..10] == local[..10] && Id(local, c)[10..20] == Digits(c);
  }

  lemma AddKeeps(s: State, gbid: string)
    requires Agree(s)
    ensures Agree(Add(s, gbid))
  {
    hide CodeOf, TypeOf, Id, TenDigits;
    if |gbid| == 20 {
      forall c: nat | InBand(c)
        ensures c in Add(s, gbid).handles[c / BAND] <==> Id(s.local, c) in Add(s, gbid).ids
      {
        IdIs(s.local, gbid, c);
      }
    }
  }

  lemma DelKeeps(s: State, gbid: string)
    requires Agree(s)
    ensures Agree(Del(s, gbid))
  {
    hide CodeOf, TypeOf, Id, TenDigits;
    if |gbid| == 20 {
      forall c: nat | InBand(c)
        ensures c in Del(s, gbid).handles[c / BAND] <==> Id(s.local, c) in Del(s, gbid).ids
      {
        IdIs(s.local, gbid, c);
      }
    }
  }

  // The code that would be taken; the last of the window belongs to the next type's band.

  function NextCode(s: State, devType: int): nat
    requires Valid(s)
  {
    LeastFree(s.handles[Family(devType)], FirstCode(devType))
  }

  predicate LastOfWindow(devType: int, c: nat) {
    c == (Family(devType) + 1) * BAND
  }

  // Creation takes the least code that is free in its window, and says "" exactly when there is none.
  lemma CreateIsLeast(s: State, devType: int)
    requires Valid(s) && |s.local| == 20 && 0 < devType < 218
    ensures var t := Family(devType); var c := NextCode(s, devType); var (s', id) := Create(s, devType);
            && (id == "" <==> forall k :: t * BAND + 1 <= k <= (t + 1) * BAND ==> k in s.handles[t])
            && (id == "" ==> s' == s)
            && (id != "" ==>
                  && t * BAND + 1 <= c <= (t + 1) * BAND && c !in s.handles[t]
                  && (forall k :: t * BAND + 1 <= k < c ==> k in s.handles[t])
                  && id == Id(s.local, c) && |id| == 20
                  && s' == State(s.local, s.ids + {id}, s.handles[t := s.handles[t] + {c}]))
  {
    hide Seek, FirstCode;
    var t, h := Family(devType), FirstCode(devType);
    var c := NextCode(s, devType);
    FirstCodeIs(devType);
    SeekIsLeast(s.handles[t], h, h);
    if c > 0 {
      TenDigitsAre(c);
      hide Digits;
    }
  }

  // A code that is not the last of its window gives an identifier nobody has, and the index still agrees
  // with the registry.
  lemma CreateKeeps(s: State, devType: int)
    requires Agree(s) && 0 < devType < TYPE_MAX
    requires !LastOfWindow(devType, NextCode(s, devType))
    ensures Agree(Create(s, devType).0)
    ensures Create(s, devType).1 !in s.ids || Create(s, devType).1 == ""
  {
    CreateIsLeast(s, devType);
    var (s', id) := Create(s, devType);
    var t, c := Family(devType), NextCode(s, devType);
    hide Seek, FirstCode, Create, NextCode, Id, Family;
    if id != "" {
      assert c / BAND == t && InBand(c);
      forall k: nat | InBand(k)
        ensures k in s'.handles[k / BAND] <==> Id(s.local, k) in s'.ids
      {
        IdsDiffer(s.local, c, k);
      }
    }
  }

  lemma IdsDiffer(local: string, c: nat, k: nat)
    requires |local| == 20 && TenDigits(c) && TenDigits(k)
    ensures Id(local, c) == Id(local, k) <==> c == k
  {
    if Id(local, c) == Id(local, k) {
      TenDigitsAre(c);
      TenDigitsAre(k);
      assert Id(local, c)[10..] == Digits(c) && Id(local, k)[10..] == Digits(k);
    }
  }

  // The last code of a window lies in the band of the type above. The index stays right exactly when
  // that type is not known or has the code already; and then the identifier is one already given out.
  lemma LastDisagrees(s: State, devType: int)
    requires Agree(s) && 0 < devType < TYPE_MAX && LastOfWindow(devType, NextCode(s, devType))
    ensures var t := Family(devType) + 1; var (s', id) := Create(s, devType);
            && (Agree(s') <==> t !in KNOWN || t * BAND in s.handles[t])
            && (t in KNOWN ==> (id in s.ids <==> t * BAND in s.handles[t]))
  {
    CreateIsLeast(s, devType);
    var (s', id) := Create(s, devType);
    var t, c := Family(devType) + 1, NextCode(s, devType);
    FirstCodeIs(devType);
    assert c == t * BAND && c / BAND == t && TenDigits(c);
    assert id != "" by { SeekIsLeast(s.handles[t - 1], FirstCode(devType), FirstCode(devType)); }
    hide Seek, FirstCode, Create, NextCode, Id, Family;
    assert t in KNOWN ==> InBand(c);
    forall k: nat | InBand(k) && k != c
      ensures k in s'.handles[k / BAND] <==> Id(s.local, k) in s'.ids
    {
      IdsDiffer(s.local, c, k);
    }
  }

  /// Whole runs.

  datatype Op = AddOp(gbid: string) | DelOp(gbid: string) | CreateOp(devType: int)

  function Apply(s: State, op: Op): (r: State)
    requires Valid(s)
    ensures Valid(r)
  {
    match op
    case AddOp(gbid) => Add(s, gbid)
    case DelOp(gbid) => Del(s, gbid)
    case CreateOp(devType) => Create(s, devType).0
  }

  function Run(s: State, ops: seq<Op>): (r: State)
    requires Valid(s)
    ensures Valid(r)
    decreases |ops|
  {
    if ops == [] then s else Run(Apply(s, ops[0]), ops[1..])
  }

  // No creation reaches the last code of a window.
  predicate NeverLast(s: State, ops: seq<Op>)
    requires Valid(s)
    decreases |ops|
  {
    ops == [] ||
    ((ops[0].CreateOp? && 0 < ops[0].devType < TYPE_MAX ==> !LastOfWindow(ops[0].devType, NextCode(s, ops[0].devType)))
     && NeverLast(Apply(s, ops[0]), ops[1..]))
  }

  lemma {:induction false} RunKeeps(s: State, ops: seq<Op>)
    requires Agree(s) && NeverLast(s, ops)
    ensures Agree(Run(s, ops))
    decreases |ops|
  {
    assert Valid(s);
    hide Agree, Add, Del, Create, NextCode, LastOfWindow;
    if ops != [] {
      match ops[0] {
        case AddOp(gbid) => AddKeeps(s, gbid);
        case DelOp(gbid) => DelKeeps(s, gbid);
        case CreateOp(devType) =>
          if 0 < devType < TYPE_MAX { CreateKeeps(s, devType); } else { CreateRefuses(s, devType); }
      }
      RunKeeps(Apply(s, ops[0]), ops[1..]);
    }
  }

  lemma CreateRefuses(s: State, devType: int)
    requires Valid(s) && !(0 < devType < 218)
    ensures Create(s, devType) == (s, "")
  {
  }

  // Without a local identifier of twenty characters creation still takes the least free code, and gives out
  // nothing for it: the code is lost.
  lemma CreateLosesCode(s: State, devType: int)
    requires Valid(s) && |s.local| != 20 && 0 < devType < 218
    ensures var t := Family(devType); var (s', id) := Create(s, devType);
            && id == "" && s'.local == s.local && s'.ids == s.ids && Valid(s')
            && (s' == s <==> forall k :: t * BAND + 1 <= k <= (t + 1) * BAND ==> k in s.handles[t])
            && (s' != s ==> exists c :: t * BAND + 1 <= c <= (t + 1) * BAND && c !in s.handles[t]
                              && s'.handles == s.handles[t := s.handles[t] + {c}]
                              && forall k :: t * BAND + 1 <= k < c ==> k in s.handles[t])
  {
    hide Seek, Family, FirstCode;
    var t, h := Family(devType), FirstCode(devType);
    FirstCodeIs(devType);
    SeekIsLeast(s.handles[t], h, h);
    var c := LeastFree(s.handles[t], h);
    if c > 0 {
      assert c in Create(s, devType).0.handles[t] && c !in s.handles[t];
      assert t * BAND + 1 <= c <= (t + 1) * BAND;
    }
  }

  // At the start of the program the local identifier is set and registered, and the index agrees from then on.
  lemma StartAgrees(id: string)
    requires |id| == 20
    ensures Agree(SetLocal(Fresh(), id))
    ensures SetLocal(Fresh(), id).local == id && SetLocal(Fresh(), id).ids == {id}
  {
    var s := Fresh().(local := id);
    assert Agree(s) by { hide TenDigits, Id; }
    AddKeeps(s, id);
  }

  // What changes nothing: an identifier of another length, or the local one set once more. Before there is a
  // local identifier, adding and deleting leave the codes alone.
  lemma Unchanged(s: State, gbid: string)
    requires Valid(s)
    ensures |gbid| != 20 ==> Add(s, gbid) == Del(s, gbid) == SetLocal(s, gbid) == s
    ensures SetLocal(s, s.local) == s
    ensures |gbid| == 20 && |s.local| != 20 ==>
              Add(s, gbid) == s.(ids := s.ids + {gbid}) && Del(s, gbid) == s.(ids := s.ids - {gbid})
  {
    hide WithCode, WithoutCode, TypeOf, CodeOf;
  }

  // What adding and releasing do to one code.
  lemma AddAt(s: State, gbid: string, k: nat)
    requires Valid(s) && |s.local| == 20 && |gbid| == 20 && InBand(k)
    ensures Valid(Add(s, gbid))
    ensures k in Add(s, gbid).handles[k / BAND] <==> k in s.handles[k / BAND] || gbid == Id(s.local, k)
  {
    hide CodeOf, TypeOf, Id, TenDigits;
    IdIs(s.local, gbid, k);
  }

  lemma ReleasedAt(s: State, k: nat)
    requires Valid(s) && |s.local| == 20 && InBand(k)
    ensures Valid(Released(s)) && Released(s).local == s.local && Released(s).ids == s.ids
    ensures k in Released(s).handles[k / BAND]
            <==> k in s.handles[k / BAND] && !(k == CodeOf(s.local) && TypeOf(s.local) == CodeOf(s.local) / BAND)
    ensures s.local == Id(s.local, k) <==> k == CodeOf(s.local) && TypeOf(s.local) == CodeOf(s.local) / BAND
  {
    hide CodeOf, TypeOf, Id, TenDigits;
    IdIs(s.local, s.local, k);
  }

  lemma SetLocalAt(s: State, id: string, k: nat)
    requires Valid(s) && |s.local| == 20 && |id| == 20 && id != s.local && id[..10] == s.local[..10] && InBand(k)
    ensures var s' := SetLocal(s, id); var mine := TypeOf(s.local) == CodeOf(s.local) / BAND;
            && Valid(s')
            && (k in s'.handles[k / BAND]
                <==> (k in s.handles[k / BAND] && !(k == CodeOf(s.local) && mine)) || id == Id(s.local, k))
            && (s.local == Id(s.local, k) <==> k == CodeOf(s.local) && mine)
  {
    hide CodeOf, TypeOf, TenDigits, Add, Released, Digits;
    ReleasedAt(s, k);
    AddAt(Released(s).(local := id), id, k);
  }

  // Setting it again within the domain does not keep that: the old identifier stays registered while
  // its code is released, and the next creation of its type may give it out again.
  lemma SetLocalAgain(s: State, id: string)
    requires Agree(s) && |id| == 20 && id != s.local && id[..10] == s.local[..10]
    ensures Agree(SetLocal(s, id)) <==>
            !(s.local in s.ids && InBand(CodeOf(s.local)) && TypeOf(s.local) == CodeOf(s.local) / BAND)
  {
    var c, s' := CodeOf(s.local), SetLocal(s, id);
    var mine := TypeOf(s.local) == c / BAND;
    assert s'.ids == s.ids + {id} && s'.local == id && forall k: nat :: Id(id, k) == Id(s.local, k);
    forall k: nat | InBand(k)
      ensures k in s'.handles[k / BAND] <==> (k in s.handles[k / BAND] && !(k == c && mine)) || id == Id(s.local, k)
      ensures s.local == Id(s.local, k) <==> k == c && mine
    {
      hide CodeOf, TypeOf, Id, TenDigits, Agree;
      SetLocalAt(s, id, k);
    }
    hide CodeOf, TypeOf, Id, TenDigits, SetLocal;
    if s.local in s.ids && InBand(c) && mine {
      assert c !in s'.handles[c / BAND] && Id(s'.local, c) in s'.ids;
    }
  }

  // A free code is the next to be given out when all codes of its window below it are in use.
  lemma FreeIsNext(s: State, c: nat, devType: int)
    requires Valid(s) && |s.local| == 20 && 0 < devType < TYPE_MAX
    requires Family(devType) * BAND < c < (Family(devType) + 1) * BAND && c !in s.handles[Family(devType)]
    ensures Create(s, devType).1 == Id(s.local, c)
            <==> forall k: nat :: Family(devType) * BAND < k < c ==> k in s.handles[Family(devType)]
  {
    hide Seek, FirstCode, Create, NextCode, Id, TenDigits, Digits;
    CreateIsLeast(s, devType);
    var t, next := Family(devType), NextCode(s, devType);
    InWindow(t, c);
    InWindow(t, next);
    IdsDiffer(s.local, next, c);
  }

  lemma InWindow(t: int, c: nat)
    requires t in KNOWN
    ensures t * BAND < c <= (t + 1) * BAND ==> TenDigits(c)
    ensures t * BAND <= c < (t + 1) * BAND ==> InBand(c) && c / BAND == t
  {
  }

  // Adding registers the identifier and, in the local domain, takes its code; nothing else changes ...
  lemma AddPutsIn(s: State, gbid: string)
    requires Valid(s) && |s.local| == 20 && |gbid| == 20
    ensures var s' := Add(s, gbid);
            && Valid(s') && s'.local == s.local && gbid in s'.ids
            && (forall id :: id != gbid ==> (id in s'.ids <==> id in s.ids))
            && forall k: nat :: InBand(k) ==>
                 (k in s'.handles[k / BAND] <==> k in s.handles[k / BAND] || gbid == Id(s.local, k))
  {
    hide CodeOf, TypeOf, Id, TenDigits;
    forall k: nat | InBand(k)
      ensures k in Add(s, gbid).handles[k / BAND] <==> k in s.handles[k / BAND] || gbid == Id(s.local, k)
    {
      AddAt(s, gbid, k);
    }
  }

  // ... and deleting takes both out again.
  lemma DelTakesOut(s: State, gbid: string)
    requires Valid(s) && |s.local| == 20 && |gbid| == 20
    ensures var s' := Del(s, gbid);
            && Valid(s') && s'.local == s.local && gbid !in s'.ids
            && (forall id :: id != gbid ==> (id in s'.ids <==> id in s.ids))
            && forall k: nat :: InBand(k) ==>
                 (k in s'.handles[k / BAND] <==> k in s.handles[k / BAND] && gbid != Id(s.local, k))
  {
    hide CodeOf, TypeOf, Id, TenDigits;
    forall k: nat | InBand(k)
      ensures k in Del(s, gbid).handles[k / BAND] <==> k in s.handles[k / BAND] && gbid != Id(s.local, k)
    {
      IdIs(s.local, gbid, k);
    }
  }

  // So an identifier that was deleted is the next of its type to be given out if and only if all codes of
  // its window below it are in use.
  lemma DeletedGivenOut(s: State, c: nat, devType: int)
    requires Agree(s) && 0 < devType < TYPE_MAX && Id(s.local, c) in s.ids
    requires Family(devType) * BAND < c < (Family(devType) + 1) * BAND
    ensures var s' := Del(s, Id(s.local, c)); var t := Family(devType);
            && Valid(s') && Id(s.local, c) !in s'.ids
            && (Create(s', devType).1 == Id(s.local, c) <==> forall k: nat :: t * BAND < k < c ==> k in s.handles[t])
  {
    hide Create, Del, Id, TenDigits, Family, InBand, Agree;
    AgreeParts(s);
    var id, t := Id(s.local, c), Family(devType);
    InWindow(t, c);
    IdLength(s.local, c);
    DelTakesOut(s, id);
    var s' := Del(s, id);
    forall k: nat | t * BAND < k <= c
      ensures k in s'.handles[t] <==> k in s.handles[t] && k != c
    {
      InWindow(t, k);
      BandIsTen(c);
      BandIsTen(k);
      IdsDiffer(s.local, c, k);
    }
    FreeIsNext(s', c, devType);
  }

  lemma BandIsTen(k: nat)
    requires InBand(k)
    ensures TenDigits(k)
  {
  }

  lemma IdLength(local: string, c: nat)
    requires |local| == 20 && InBand(c)
    ensures |Id(local, c)| == 20
  {
    hide Digits;
    TenDigitsAre(c);
  }

  // After setting the local identifier again, a creation of the old one's type gives the old one out a
  // second time, if and only if all identifiers of its window below it are registered.
  lemma OldLocalGivenOut(s: State, id: string, devType: int)
    requires Agree(s) && |id| == 20 && id != s.local && id[..10] == s.local[..10] && s.local in s.ids
    requires 0 < devType < TYPE_MAX && TypeOf(s.local) == Family(devType)
    requires Family(devType) * BAND < CodeOf(s.local) < (Family(devType) + 1) * BAND
    ensures var s' := SetLocal(s, id); var t := Family(devType);
            && Valid(s') && s.local in s'.ids
            && (Create(s', devType).1 == s.local
                <==> forall k: nat :: t * BAND < k < CodeOf(s.local) ==> Id(s.local, k) in s'.ids)
  {
    hide CodeOf, TypeOf, Id, TenDigits, Create, SetLocal, Agree, Family;
    AgreeParts(s);
    var t, c, s' := Family(devType), CodeOf(s.local), SetLocal(s, id);
    SetLocalParts(s, id);
    InWindow(t, c);
    IdIs(s.local, s.local, c);
    SetLocalAt(s, id, c);
    FreeIsNext(s', c, devType);
    forall k: nat | t * BAND < k < c
      ensures k in s'.handles[t] <==> Id(s.local, k) in s'.ids
    {
      InWindow(t, k);
      SetLocalAt(s, id, k);
      AgreeAt(s, k);
    }
  }

  lemma SetLocalParts(s: State, id: string)
    requires Agree(s) && |id| == 20 && id != s.local && id[..10] == s.local[..10]
    ensures var s' := SetLocal(s, id);
            Valid(s') && s'.local == id && s'.ids == s.ids + {id} && forall k: nat :: Id(id, k) == Id(s.local, k)
  {
    hide CodeOf, TypeOf;
  }

  lemma AgreeParts(s: State)
    requires Agree(s)
    ensures Valid(s) && |s.local| == 20
  {
  }

  lemma AgreeAt(s: State, k: nat)
    requires Agree(s) && InBand(k)
    ensures k in s.handles[k / BAND] <==> Id(s.local, k) in s.ids
  {
    hide TenDigits, Id;
  }

  // Set to an identifier of another domain, the index would have to describe that domain: it agrees if
  // and only if, the old local identifier and the new one apart, the same codes are registered in both.
  lemma SetLocalElsewhere(s: State, id: string)
    requires Agree(s) && |id| == 20 && id[..10] != s.local[..10]
    ensures Agree(SetLocal(s, id)) <==>
            forall k: nat :: InBand(k) && id != Id(id, k) ==>
              (Id(s.local, k) in s.ids && Id(s.local, k) != s.local <==> Id(id, k) in s.ids)
  {
    hide CodeOf, TypeOf, Id, TenDigits, Agree, SetLocal;
    AgreeParts(s);
    var s' := SetLocal(s, id);
    ElsewhereParts(s, id);
    forall k: nat | InBand(k)
      ensures k in s'.handles[k / BAND]
              <==> (Id(s.local, k) in s.ids && Id(s.local, k) != s.local) || id == Id(id, k)
    {
      ElsewhereAt(s, id, k);
      AgreeAt(s, k);
    }
    AgreeIs(s');
  }

  lemma ElsewhereParts(s: State, id: string)
    requires Agree(s) && |id| == 20 && id[..10] != s.local[..10]
    ensures var s' := SetLocal(s, id); Valid(s') && s'.local == id && s'.ids == s.ids + {id}
  {
    hide CodeOf, TypeOf;
  }

  lemma AgreeIs(s: State)
    requires Valid(s) && |s.local| == 20
    ensures Agree(s) <==> forall k: nat :: InBand(k) ==> (k in s.handles[k / BAND] <==> Id(s.local, k) in s.ids)
  {
    hide TenDigits, Id;
  }

  lemma ElsewhereAt(s: State, id: string, k: nat)
    requires Valid(s) && |s.local| == 20 && |id| == 20 && id[..10] != s.local[..10] && InBand(k)
    ensures var s' := SetLocal(s, id);
            && Valid(s')
            && (k in s'.handles[k / BAND]
                <==> (k in s.handles[k / BAND] && Id(s.local, k) != s.local) || id == Id(id, k))
  {
    hide CodeOf, TypeOf, TenDigits, Add, Released, Id;
    ReleasedAt(s, k);
    AddAt(Released(s).(local := id), id, k);
  }

  /// The classes.

  class HandleMng {
    const start: nat
    const max: nat
    var cur: nat
    var handles: set<nat>

    constructor (from: nat, to: nat)
      ensures handles == {} && cur == from && start == from && max == to
    {
      start, max, cur, handles := from, to, from, {};
    }

    // GetGBCodeSeq_R
    method GetCode(h: nat) returns (c: nat)
      requires h > 0
      modifies this`handles
      ensures c == LeastFree(old(handles), h) && handles == if c == 0 then old(handles) else old(handles) + {c}
    {
      var n := h;
      while n in handles
        invariant h <= n <= h + 0x98967E + 2 && Seek(handles, n, h) == Seek(handles, h, h)
        decreases h + 0x98967E + 2 - n
      {
        if n > 0x98967E + h { return 0; }
        n := n + 1;
      }
      handles := handles + {n};
      return n;
    }

    // AddHandle_R
    method AddHandle(h: nat)
      modifies this`handles
      ensures handles == old(handles) + {h}
    {
      handles := handles + {h};
    }

    // ReleasHandle
    method ReleaseHandle(h: nat)
      modifies this
      ensures handles == old(handles) - {h} && cur == if old(cur) > h then h else old(cur)
    {
      handles := handles - {h};
      if cur > h { cur := h; }
    }
  }

  function Types(): seq<int> {
    [118, 132, 214, 200, 216, 111, 114, 113, 131, 215, 117, 217]
  }

  // Where the constructor says the band of each ends.
  function BandEnds(): seq<nat> {
    [0x46EDF57F, 0x4F46307F, 0x8026657F, 0x77CE2A7F, 0x8157927F, 0x42C1D7FF,
     0x448B9B7F, 0x43F304FF, 0x4EAD99FF, 0x80BEFBFF, 0x46555EFF, 0x81F028FF]
  }

  lemma TwelveTypes()
    ensures |Types()| == |BandEnds()| == 12 && forall i :: 0 <= i < 12 ==> Types()[i] > 0
    ensures forall t :: t in Types() <==> t in KNOWN
    ensures forall i :: 0 <= i < 12 ==> BandEnds()[i] == (Types()[i] + 1) * BAND - 1
  {
    TypesAre();
    EndsAre();
    hide Types, BandEnds;
  }

  lemma TypesAre()
    ensures |Types()| == 12 && forall i :: 0 <= i < 12 ==> Types()[i] > 0
    ensures forall t :: t in Types() <==> t in KNOWN
  {
    var types := Types();
    assert types[0] == 118 && types[1] == 132 && types[2] == 214 && types[3] == 200 && types[4] == 216 && types[5] == 111;
    assert types[6] == 114 && types[7] == 113 && types[8] == 131 && types[9] == 215 && types[10] == 117 && types[11] == 217;
  }

  // Each band ends just below the next.
  lemma EndsAre()
    ensures |Types()| == |BandEnds()| == 12
    ensures forall i :: 0 <= i < 12 ==> BandEnds()[i] == (Types()[i] + 1) * BAND - 1
  {
    var types, ends := Types(), BandEnds();
    assert ends[0] == (types[0] + 1) * BAND - 1 && ends[1] == (types[1] + 1) * BAND - 1;
    assert ends[2] == (types[2] + 1) * BAND - 1 && ends[3] == (types[3] + 1) * BAND - 1;
    assert ends[4] == (types[4] + 1) * BAND - 1 && ends[5] == (types[5] + 1) * BAND - 1;
    assert ends[6] == (types[6] + 1) * BAND - 1 && ends[7] == (types[7] + 1) * BAND - 1;
    assert ends[8] == (types[8] + 1) * BAND - 1 && ends[9] == (types[9] + 1) * BAND - 1;
    assert ends[10] == (types[10] + 1) * BAND - 1 && ends[11] == (types[11] + 1) * BAND - 1;
  }

  class DevCodeMng {
    var local: string
    var ids: set<string>
    const seqs: map<int, HandleMng>

    // Every known type has its own set, made for its band.
    ghost predicate Separate() {
      seqs.Keys == KNOWN && forall t :: t in seqs ==> seqs[t].start == t * BAND + 1 && seqs[t].max == (t + 1) * BAND - 1
    }

    ghost function View(): (s: State)
      reads this, seqs.Values
      ensures Separate() ==> Valid(s)
    {
      State(local, ids, map t | t in seqs :: seqs[t].handles)
    }

    constructor (localGbId: string)
      ensures Separate() && View() == Fresh().(local := localGbId) && fresh(seqs.Values)
    {
      var m := AllBands();
      local, ids, seqs := localGbId, {}, m;
    }

    // The twelve bands, from type times ten million and one.
    static method AllBands() returns (m: map<int, HandleMng>)
      ensures Bands(m) && m.Keys == KNOWN && forall t :: t in m ==> fresh(m[t])
    {
      hide Bands, Types, BandEnds;
      TwelveTypes();
      m := BandsFor(Types(), BandEnds());
      assert forall t :: t in m.Keys <==> t in KNOWN;
    }

    static method BandsFor(types: seq<int>, ends: seq<nat>) returns (m: map<int, HandleMng>)
      requires |types| == |ends|
      requires forall i :: 0 <= i < |types| ==> types[i] > 0 && ends[i] == (types[i] + 1) * BAND - 1
      ensures Bands(m) && forall t :: (t in m <==> t in types) && (t in m ==> fresh(m[t]))
    {
      m := map[];
      for i := 0 to |types|
        invariant Bands(m) && forall t :: (t in m <==> t in types[..i]) && (t in m ==> fresh(m[t]))
      {
        var h := new HandleMng(types[i] * BAND + 1, ends[i]);
        m := m[types[i] := h];
      }
    }

    static ghost predicate Bands(m: map<int, HandleMng>)
      reads m.Values
    {
      forall t :: t in m ==> m[t].start == t * BAND + 1 && m[t].max == (t + 1) * BAND - 1 && m[t].handles == {}
    }

    lemma HasKnown()
      requires Separate()
      ensures seqs.Keys == KNOWN
    {
    }

    // No two types share a set.
    lemma OneOf(t: int)
      requires Separate() && t in seqs
      ensures seqs[t] in seqs.Values && forall u :: u in seqs && u != t ==> seqs[u] != seqs[t]
    {
    }

    // One more code for a known type.
    method AddCode(gbid: string)
      requires Separate() && |gbid| == 20
      modifies seqs.Values
      ensures local == old(local) && ids == old(ids)
      ensures View() == old(View()).(handles := WithCode(old(View().handles), TypeOf(gbid), CodeOf(gbid)))
    {
      hide CodeOf, TypeOf, Separate;
      HasKnown();
      var t, c := TypeOf(gbid), CodeOf(gbid);
      if t > 0 && t in seqs {
        OneOf(t);
        seqs[t].AddHandle(c);
      }
    }

    method ReleaseCode(gbid: string)
      requires Separate() && |gbid| == 20
      modifies seqs.Values
      ensures local == old(local) && ids == old(ids)
      ensures View() == old(View()).(handles := WithoutCode(old(View().handles), TypeOf(gbid), CodeOf(gbid)))
    {
      hide CodeOf, TypeOf, Separate;
      HasKnown();
      var t, c := TypeOf(gbid), CodeOf(gbid);
      if t > 0 && t in seqs {
        OneOf(t);
        seqs[t].ReleaseHandle(c);
      }
    }

    method TakeCode(t: int, h: nat) returns (c: nat)
      requires Separate() && t in seqs && h > 0
      modifies seqs.Values
      ensures local == old(local) && ids == old(ids)
      ensures var s := old(View());
              c == LeastFree(s.handles[t], h)
              && View() == s.(handles := if c > 0 then s.handles[t := s.handles[t] + {c}] else s.handles)
    {
      OneOf(t);
      hide LeastFree, Separate;
      c := seqs[t].GetCode(h);
    }

    method AddDevCodeID(gbid: string)
      requires Separate()
      modifies this, seqs.Values
      ensures Separate() && View() == Add(old(View()), gbid)
    {
      hide Separate, WithCode, SameDomain, CodeOf, TypeOf;
      if |gbid| != 20 { return; }
      ids := ids + {gbid};
      assert View() == old(View()).(ids := ids);
      if SameDomain(local, gbid) { AddCode(gbid); }
    }

    method DelDevCodeID(gbid: string)
      requires Separate()
      modifies this, seqs.Values
      ensures Separate() && View() == Del(old(View()), gbid)
    {
      if |gbid| != 20 { return; }
      ids := ids - {gbid};
      if SameDomain(local, gbid) { ReleaseCode(gbid); }
    }

    method CreateDevCode(devType: int) returns (id: string)
      requires Separate()
      modifies this, seqs.Values
      ensures Separate() && (View(), id) == Create(old(View()), devType)
    {
      hide LeastFree, FirstCode;
      id := "";
      if devType <= 0 || devType >= TYPE_MAX { return; }
      ghost var s := View();
      FirstCodeIs(devType);
      var code := TakeCode(Family(devType), FirstCode(devType));
      if code > 0 && |local| == 20 {
        ghost var v := View();
        id := Id(local, code);
        ids := ids + {id};
        assert View() == v.(ids := s.ids + {id});
      }
      assert View() == Create(s, devType).0;
    }

    method SetLocalGBID(id: string)
      requires Separate()
      modifies this, seqs.Values
      ensures Separate() && View() == SetLocal(old(View()), id)
    {
      hide Add, Released;
      if |id| != 20 || local == id { return; }
      ReleaseLocal();
      ghost var r := View();
      local := id;
      assert View() == r.(local := id);
      AddDevCodeID(id);
    }

    method ReleaseLocal()
      requires Separate()
      modifies seqs.Values
      ensures local == old(local) && ids == old(ids) && View() == Released(old(View()))
    {
      hide WithoutCode, CodeOf, TypeOf;
      if |local| == 20 { ReleaseCode(local); }
    }
  }
}
