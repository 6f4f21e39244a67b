/** The allocator under concurrent callers, whose critical sections, two to a call, may interleave. */
module GbConcurrent {
  import opened GbCode
  import opened GbId

  // A caller between its two critical sections.
  datatype Task = Creating(code: nat) | Deleting(gbid: string)

  // Beside the allocator's fields: the callers under way, the identifiers returned to callers and not
  // given back, those loaded at the start and not deleted, and whether a creation has taken the last code of a window.
  datatype System = System(
    local: string, ids: set<string>, handles: map<int, set<nat>>,
    tasks: map<nat, Task>, live: seq<string>, loaded: set<string>, spilled: bool)

  datatype Action =
    | Allocate(caller: nat, devType: int) // CreateDevCode under m_CodeSeqMutex
    | Publish(caller: nat) // CreateDevCode under m_DevCodeMutex
    | Erase(caller: nat, gbid: string) // DelDevCodeID under m_DevCodeMutex
    | Release(caller: nat) // DelDevCodeID under m_CodeSeqMutex

  ghost predicate Formed(s: System) {
    s.handles.Keys == KNOWN && |s.local| == 20
  }

  function Alone(s: System): State {
    State(s.local, s.ids, s.handles)
  }

  // Callers delete only identifiers that are theirs to delete: returned to one of them, or loaded, and
  // not deleted yet.
  predicate Owned(s: System, gbid: string) {
    |gbid| == 20 && (gbid in s.live || gbid in s.loaded)
  }

  function Remove(s: seq<string>, x: string): seq<string> {
    if s == [] then [] else if s[0] == x then s[1..] else [s[0]] + Remove(s[1..], x)
  }

  // One critical section; an action that is not possible changes nothing.
  function Step(s: System, a: Action): (r: System)
    requires Formed(s)
    ensures Formed(r) && r.local == s.local
  {
    match a
    case Allocate(k, d) =>
      if k in s.tasks || d <= 0 || d >= TYPE_MAX then s else
        var c := NextCode(Alone(s), d);
        var t := Family(d);
        if c == 0 then s
        else s.(handles := s.handles[t := s.handles[t] + {c}], tasks := s.tasks[k := Creating(c)],
                spilled := s.spilled || LastOfWindow(d, c))
    case Publish(k) =>
      if k !in s.tasks || !s.tasks[k].Creating? then s else
        var id := Id(s.local, s.tasks[k].code);
        s.(ids := s.ids + {id}, live := s.live + [id], tasks := s.tasks - {k})
    case Erase(k, gbid) =>
      if k in s.tasks || !Owned(s, gbid) then s
      else s.(ids := s.ids - {gbid}, live := Remove(s.live, gbid), loaded := s.loaded - {gbid},
              tasks := s.tasks[k := Deleting(gbid)])
    case Release(k) =>
      if k !in s.tasks || !s.tasks[k].Deleting? then s else
        var gbid := s.tasks[k].gbid;
        s.(handles := if SameDomain(s.local, gbid) then WithoutCode(s.handles, TypeOf(gbid), CodeOf(gbid)) else s.handles,
           tasks := s.tasks - {k})
  }

  function Run(s: System, actions: seq<Action>): (r: System)
    requires Formed(s)
    ensures Formed(r) && r.local == s.local
    decreases |actions|
  {
    if actions == [] then s else Run(Step(s, actions[0]), actions[1..])
  }

  // Loading is complete, and nobody has begun.
  function Start(s: State): System {
    System(s.local, s.ids, s.handles, map[], [], s.ids, false)
  }

  /// What every step keeps.

  ghost predicate Distinct(s: seq<string>) {
    forall i, j :: 0 <= i < j < |s| ==> s[i] != s[j]
  }

  function TaskId(s: System, k: nat): string
    requires k in s.tasks && |s.local| == 20
  {
    match s.tasks[k] case Creating(c) => Id(s.local, c) case Deleting(gbid) => gbid
  }

  // Registered, or on its way in or out.
  ghost predicate Held(s: System, id: string)
    requires |s.local| == 20
  {
    id in s.ids || exists k :: k in s.tasks && TaskId(s, k) == id
  }

  ghost predicate Callers(s: System)
    requires |s.local| == 20
  {
    && (forall k :: k in s.tasks ==>
          && TaskId(s, k) !in s.ids && |TaskId(s, k)| == 20
          && (s.tasks[k].Creating? ==> InBand(s.tasks[k].code)))
    && (forall k, l :: k in s.tasks && l in s.tasks && k != l ==> TaskId(s, k) != TaskId(s, l))
  }

  ghost predicate Registry(s: System) {
    && Distinct(s.live)
    && (forall id :: id in s.live ==> id !in s.loaded)
    && (forall id :: id in s.ids <==> id in s.live || id in s.loaded)
  }

  // A code is in use exactly while its identifier is held.
  ghost predicate Index(s: System)
    requires Formed(s)
  {
    forall c: nat :: InBand(c) ==> (c in s.handles[c / BAND] <==> Held(s, Id(s.local, c)))
  }

  ghost predicate Inv(s: System) {
    Formed(s) && Callers(s) && Registry(s) && Index(s)
  }

  lemma StartInv(s: State)
    requires Agree(s)
    ensures Inv(Start(s)) && !Start(s).spilled && Alone(Start(s)) == s && Start(s).loaded == s.ids
  {
    hide TenDigits, Id;
    var r := Start(s);
    forall c: nat | InBand(c)
      ensures c in r.handles[c / BAND] <==> Held(r, Id(r.local, c))
    {
    }
  }

  // What Allocate does when it takes a code inside the band.
  lemma AllocateInv(s: System, k: nat, d: int)
    requires Inv(s) && !Step(s, Allocate(k, d)).spilled
    ensures Inv(Step(s, Allocate(k, d)))
  {
    var s' := Step(s, Allocate(k, d));
    if s' != s {
      var t, c := Family(d), NextCode(Alone(s), d);
      AllocatedCode(s, d);
      TakenCode(s, s', k, t, c);
    }
  }

  lemma AllocatedCode(s: System, d: int)
    requires Formed(s) && 0 < d < TYPE_MAX && NextCode(Alone(s), d) != 0 && !LastOfWindow(d, NextCode(Alone(s), d))
    ensures var c := NextCode(Alone(s), d); InBand(c) && c / BAND == Family(d) && c !in s.handles[Family(d)]
  {
    hide LeastFree, FirstCode;
    var t, h, c := Family(d), FirstCode(d), NextCode(Alone(s), d);
    FirstCodeIs(d);
    CreateIsLeast(Alone(s), d);
    hide NextCode, Create, Family;
    assert t * BAND + 1 <= c <= (t + 1) * BAND - 1;
    assert c / BAND == t;
  }

  lemma TakenCode(s: System, s': System, k: nat, t: int, c: nat)
    requires Inv(s) && k !in s.tasks && t in KNOWN && InBand(c) && c / BAND == t && c !in s.handles[t]
    requires s' == s.(handles := s.handles[t := s.handles[t] + {c}], tasks := s.tasks[k := Creating(c)], spilled := s'.spilled)
    ensures Inv(s')
  {
    hide Id, TenDigits;
    var id := Id(s.local, c);
    assert !Held(s, id);
    assert forall l :: l in s.tasks ==> l in s'.tasks && TaskId(s', l) == TaskId(s, l);
    assert TaskId(s', k) == id && |id| == 20 by { IdIs(s.local, s.local, c); }
    assert forall l :: l in s.tasks ==> TaskId(s, l) != id;
    forall b: nat | InBand(b)
      ensures b in s'.handles[b / BAND] <==> Held(s', Id(s.local, b))
    {
      IdsDiffer(s.local, c, b);
      HeldMore(s, s', k, Id(s.local, b));
    }
  }

  // A new task holds one more identifier.
  lemma HeldMore(s: System, s': System, k: nat, id: string)
    requires |s.local| == 20 && s'.local == s.local && s'.ids == s.ids && k !in s.tasks
    requires k in s'.tasks && s'.tasks == s.tasks[k := s'.tasks[k]]
    ensures Held(s', id) <==> Held(s, id) || TaskId(s', k) == id
  {
    if Held(s, id) && id !in s.ids {
      var l :| l in s.tasks && TaskId(s, l) == id;
      assert l in s'.tasks && TaskId(s', l) == id;
    }
    if Held(s', id) && id !in s.ids {
      var l :| l in s'.tasks && TaskId(s', l) == id;
      assert l != k ==> l in s.tasks && TaskId(s, l) == id;
    }
  }

  // Publishing moves an identifier from its task to the registry, and to the caller.
  lemma PublishInv(s: System, k: nat)
    requires Inv(s)
    ensures Inv(Step(s, Publish(k)))
  {
    hide Id, TenDigits;
    var s' := Step(s, Publish(k));
    if s' != s {
      var id := TaskId(s, k);
      assert forall l :: l in s'.tasks ==> l in s.tasks && l != k && TaskId(s', l) == TaskId(s, l);
      forall x: string
        ensures Held(s', x) <==> Held(s, x)
      {
        if Held(s, x) && x !in s'.ids {
          var l :| l in s.tasks && TaskId(s, l) == x;
          assert l in s'.tasks && TaskId(s', l) == x;
        }
      }
      assert forall b: nat :: InBand(b) ==> (b in s'.handles[b / BAND] <==> Held(s', Id(s.local, b)));
    }
  }

  lemma {:induction false} RemoveKeeps(s: seq<string>, x: string)
    requires Distinct(s)
    ensures Distinct(Remove(s, x)) && forall y :: y in Remove(s, x) <==> y in s && y != x
    decreases |s|
  {
    if s != [] {
      var rest, less := s[1..], Remove(s[1..], x);
      RemoveKeeps(rest, x);
      assert forall y :: y in s <==> y == s[0] || y in rest;
      assert s[0] !in rest;
      if s[0] != x { FirstNew(s[0], less); }
    }
  }

  lemma FirstNew(y: string, s: seq<string>)
    requires Distinct(s) && y !in s
    ensures Distinct([y] + s)
  {
    var t := [y] + s;
    forall i, j | 0 <= i < j < |t|
      ensures t[i] != t[j]
    {
      assert t[j] == s[j - 1] && (i > 0 ==> t[i] == s[i - 1]);
    }
  }

  // Erasing moves it from the registry to a task.
  lemma EraseInv(s: System, k: nat, gbid: string)
    requires Inv(s)
    ensures Inv(Step(s, Erase(k, gbid)))
  {
    hide Id, TenDigits, Remove;
    var s' := Step(s, Erase(k, gbid));
    if s' != s {
      RemoveKeeps(s.live, gbid);
      assert gbid in s.ids;
      assert forall l :: l in s.tasks ==> l in s'.tasks && TaskId(s', l) == TaskId(s, l);
      assert TaskId(s', k) == gbid && forall l :: l in s.tasks ==> TaskId(s, l) != gbid;
      forall x: string
        ensures Held(s', x) <==> Held(s, x)
      {
        if x == gbid { assert k in s'.tasks && TaskId(s', k) == x; }
        if Held(s, x) && x !in s.ids {
          var l :| l in s.tasks && TaskId(s, l) == x;
          assert l in s'.tasks && TaskId(s', l) == x;
        }
      }
      assert forall b: nat :: InBand(b) ==> (b in s'.handles[b / BAND] <==> Held(s', Id(s.local, b)));
    }
  }

  // Releasing ends it.
  lemma ReleaseInv(s: System, k: nat)
    requires Inv(s)
    ensures Inv(Step(s, Release(k)))
  {
    hide Id, InBand, Held, Registry, Index, CodeOf, TypeOf, WithoutCode, SameDomain, TaskId, Callers;
    var s' := Step(s, Release(k));
    if s' != s {
      ReleaseIndex(s, k);
      ReleaseCallers(s, k);
      SameRegistry(s, s');
    }
  }

  lemma ReleaseCallers(s: System, k: nat)
    requires Inv(s) && k in s.tasks && s.tasks[k].Deleting?
    ensures Callers(Step(s, Release(k)))
  {
    hide Id, InBand, Registry, Index, CodeOf, TypeOf, WithoutCode, SameDomain;
    var s' := Step(s, Release(k));
    assert forall l :: l in s'.tasks ==> l in s.tasks && l != k && TaskId(s', l) == TaskId(s, l);
  }

  lemma ReleaseIndex(s: System, k: nat)
    requires Inv(s) && k in s.tasks && s.tasks[k].Deleting?
    ensures Index(Step(s, Release(k)))
  {
    hide Id, TenDigits, Held, Registry, CodeOf, TypeOf, WithoutCode, SameDomain, TaskId, Callers;
    var s' := Step(s, Release(k));
    forall b: nat | InBand(b)
      ensures b in s'.handles[b / BAND] <==> Held(s', Id(s.local, b))
    {
      ReleasedCode(s, k, b);
      HeldLess(s, s', k, Id(s.local, b));
    }
  }

  lemma SameRegistry(s: System, s': System)
    requires Registry(s) && s'.live == s.live && s'.loaded == s.loaded && s'.ids == s.ids
    ensures Registry(s')
  {
  }

  // Releasing takes the one code out of use that the identifier holds.
  lemma ReleasedCode(s: System, k: nat, b: nat)
    requires Inv(s) && k in s.tasks && s.tasks[k].Deleting? && InBand(b)
    ensures b / BAND in KNOWN
    ensures b in Step(s, Release(k)).handles[b / BAND] <==> Held(s, Id(s.local, b)) && TaskId(s, k) != Id(s.local, b)
  {
    hide Id, TenDigits, CodeOf, TypeOf, Held, Registry;
    IdIs(s.local, TaskId(s, k), b);
  }

  lemma HeldLess(s: System, s': System, k: nat, id: string)
    requires Inv(s) && s'.local == s.local && s'.ids == s.ids && k in s.tasks && s'.tasks == s.tasks - {k}
    ensures Held(s', id) <==> Held(s, id) && TaskId(s, k) != id
  {
    if Held(s, id) && TaskId(s, k) != id && id !in s.ids {
      var l :| l in s.tasks && TaskId(s, l) == id;
      assert l in s'.tasks && TaskId(s', l) == id;
    }
    if Held(s', id) && id !in s.ids {
      var l :| l in s'.tasks && TaskId(s', l) == id;
      assert l in s.tasks && l != k && TaskId(s, l) == id;
    }
  }

  lemma StepInv(s: System, a: Action)
    requires Inv(s) && !Step(s, a).spilled
    ensures Inv(Step(s, a))
  {
    match a
    case Allocate(k, d) => AllocateInv(s, k, d);
    case Publish(k) => PublishInv(s, k);
    case Erase(k, gbid) => EraseInv(s, k, gbid);
    case Release(k) => ReleaseInv(s, k);
  }

  lemma {:induction false} SpillsStay(s: System, actions: seq<Action>)
    requires Formed(s)
    ensures s.spilled ==> Run(s, actions).spilled
    decreases |actions|
  {
    if actions != [] { SpillsStay(Step(s, actions[0]), actions[1..]); }
  }

  lemma {:induction false} RunInv(s: System, actions: seq<Action>)
    requires Inv(s) && !Run(s, actions).spilled
    ensures Inv(Run(s, actions))
    decreases |actions|
  {
    assert Formed(s);
    hide Inv, Step;
    if actions != [] {
      SpillsStay(Step(s, actions[0]), actions[1..]);
      StepInv(s, actions[0]);
      RunInv(Step(s, actions[0]), actions[1..]);
    }
  }

  // In every interleaving, as long as no window's last code has been taken, the identifiers callers
  // hold are pairwise different and differ from every loaded one; and whenever nobody is between two
  // critical sections, the index agrees with the registry.
  lemma LiveIdsDiffer(s: State, actions: seq<Action>)
    requires Agree(s) && !Run(Start(s), actions).spilled
    ensures var r := Run(Start(s), actions);
            && Distinct(r.live)
            && (forall id :: id in r.live ==> id !in r.loaded && id in r.ids)
            && (r.tasks == map[] ==> Agree(Alone(r)))
  {
    StartInv(s);
    RunInv(Start(s), actions);
    var r := Run(Start(s), actions);
    if r.tasks == map[] {
      hide TenDigits, Id;
      forall c: nat | InBand(c)
        ensures c in r.handles[c / BAND] <==> Id(r.local, c) in r.ids
      {
        assert c in r.handles[c / BAND] <==> Held(r, Id(r.local, c));
      }
    }
  }

  // The last code of a window is taken only when every other code of the type is in use.
  lemma SpillMeansFull(s: System, a: Action)
    requires Formed(s) && !s.spilled && Step(s, a).spilled
    ensures a.Allocate? && 0 < a.devType < 218
    ensures var t := Family(a.devType); forall c: nat :: t * BAND < c < (t + 1) * BAND ==> c in s.handles[t]
  {
    hide LeastFree, FirstCode;
    FirstCodeIs(a.devType);
    CreateIsLeast(Alone(s), a.devType);
  }

  // Loading has to be over: while an identifier is in the registry and its code not yet in the index, as
  // AddDevCodeID leaves them between its two locks, a creation of its type gives the same identifier out
  // if and only if all identifiers of its window below it are registered.
  lemma HalfLoadedIsGivenOut(s: State, c: nat, devType: int)
    requires Agree(s) && 0 < devType < TYPE_MAX && Id(s.local, c) !in s.ids
    requires Family(devType) * BAND < c < (Family(devType) + 1) * BAND
    ensures var half := s.(ids := s.ids + {Id(s.local, c)});
            Create(half, devType).1 == Id(s.local, c)
            <==> forall k: nat :: Family(devType) * BAND < k < c ==> Id(s.local, k) in s.ids
  {
    hide Create, Id, TenDigits, Agree, Family;
    AgreeParts(s);
    var t, half := Family(devType), s.(ids := s.ids + {Id(s.local, c)});
    InWindow(t, c);
    AgreeAt(s, c);
    FreeIsNext(half, c, devType);
    forall k: nat | t * BAND < k < c
      ensures k in half.handles[t] <==> Id(s.local, k) in s.ids
    {
      InWindow(t, k);
      AgreeAt(s, k);
    }
  }

  // A creation that nobody comes between is a creation, and a deletion a deletion.
  lemma AloneCreates(s: System, k: nat, d: int)
    requires Formed(s) && k !in s.tasks && 0 < d < 218
    ensures var r := Run(s, [Allocate(k, d), Publish(k)]); var (made, id) := Create(Alone(s), d);
            && Alone(r) == made && r.tasks == s.tasks && r.loaded == s.loaded
            && r.live == s.live + (if id == "" then [] else [id])
  {
    hide LeastFree, FirstCode, Family, Id, LastOfWindow;
    RunTwo(s, Allocate(k, d), Publish(k));
    var m := Step(s, Allocate(k, d));
    if NextCode(Alone(s), d) == 0 {
      assert s.live + [] == s.live;
    } else {
      assert m.tasks[k] == Creating(NextCode(Alone(s), d));
      IdIsText(s.local, NextCode(Alone(s), d));
      assert Step(m, Publish(k)).tasks == s.tasks;
    }
  }

  lemma IdIsText(local: string, c: nat)
    requires |local| == 20
    ensures Id(local, c) != ""
  {
  }

  lemma AloneDeletes(s: System, k: nat, gbid: string)
    requires Formed(s) && k !in s.tasks && |gbid| == 20 && (gbid in s.live || gbid in s.loaded)
    ensures var r := Run(s, [Erase(k, gbid), Release(k)]);
            && Alone(r) == Del(Alone(s), gbid) && r.tasks == s.tasks
            && r.live == Remove(s.live, gbid) && r.loaded == s.loaded - {gbid}
  {
    hide WithoutCode, TypeOf, CodeOf, Remove, SameDomain;
    RunTwo(s, Erase(k, gbid), Release(k));
    var m := Step(s, Erase(k, gbid));
    assert m.tasks[k] == Deleting(gbid) && Step(m, Release(k)).tasks == s.tasks;
  }

  lemma RunTwo(s: System, a: Action, b: Action)
    requires Formed(s)
    ensures Run(s, [a, b]) == Step(Step(s, a), b)
  {
    hide Step;
    assert [a, b][1..] == [b] && [b][1..] == [];
    assert Run(Step(Step(s, a), b), []) == Step(Step(s, a), b);
  }
}
