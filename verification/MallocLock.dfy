/**
  The spin lock and the recursive malloc lock it carries, as a machine whose steps are single memory
  accesses of any number of cores in any order. The exclusive monitor decides whether a store-exclusive
  succeeds; memory is sequentially consistent.
 */
module MallocLock {

  /**
    Where a core is. A lock or unlock call first acquires the spin lock: a load-exclusive, then a
    store-exclusive that is tried only if zero was loaded. The other points are the memory accesses made
    while the spin lock is held; reg is a value loaded earlier.
   */
  datatype Pc =
    | Outside
    | LoadEx(call: Call)
    | StoreEx(call: Call, reg: int)
    | LockReadCount
    | LockSetCount
    | LockSetOwner
    | LockReadOwner
    | LockIncrement(reg: int)
    | LockReadAgain
    | LockDone
    | LockRetry
    | UnlockReadCount
    | UnlockDecrement(reg: int)
    | UnlockTest(reg: int)
    | UnlockZero
    | UnlockDone

  datatype Call = Lock | Unlock

  /** monitor: the core's exclusive access is still open; depth: lock calls returned minus unlock calls returned. */
  datatype Core = Core(pc: Pc, monitor: bool, depth: nat)

  datatype State = State(word: int, count: int, owner: nat, cores: seq<Core>)

  datatype Action =
    | Run(core: nat)
    | Enter(core: nat, call: Call)
    | Lose(core: nat)

  ghost function Init(n: nat): State
  {
    State(0, 0, 0, seq(n, i => Core(Outside, false, 0)))
  }

  /** A core unlocks only what it has locked. */
  predicate Legal(s: State, a: Action)
  {
    && a.core < |s.cores|
    && (a.Enter? ==> s.cores[a.core].pc == Outside && (a.call == Unlock ==> s.cores[a.core].depth > 0))
  }

  /** What one step of a core leaves: the core, the shared variables, and whether it stored to the lock word. */
  datatype Effect = Effect(core: Core, word: int, count: int, owner: nat, stored: bool)

  /** The next step of core c, which is at core.pc. */
  function RunCore(core: Core, c: nat, word: int, count: int, owner: nat): Effect
  {
    var here := Effect(core, word, count, owner, false);
    match core.pc
    case Outside => here
    case LoadEx(call) => here.(core := core.(pc := StoreEx(call, word), monitor := true))
    case StoreEx(call, reg) =>
      if reg == 0 && core.monitor then
        Effect(core.(pc := if call == Lock then LockReadCount else UnlockReadCount, monitor := false),
               1, count, owner, true)
      else
        here.(core := core.(pc := LoadEx(call)))
    case LockReadCount => here.(core := core.(pc := if count <= 0 then LockSetCount else LockReadOwner))
    case LockSetCount => here.(core := core.(pc := LockSetOwner), count := 1)
    case LockSetOwner => here.(core := core.(pc := LockDone), owner := c)
    case LockReadOwner => here.(core := core.(pc := if owner == c then LockReadAgain else LockRetry))
    case LockReadAgain => here.(core := core.(pc := LockIncrement(count)))
    case LockIncrement(reg) => here.(core := core.(pc := LockDone), count := reg + 1)
    case LockDone => Effect(Core(Outside, false, core.depth + 1), 0, count, owner, true)
    case LockRetry => Effect(core.(pc := LoadEx(Lock), monitor := false), 0, count, owner, true)
    case UnlockReadCount => here.(core := core.(pc := UnlockDecrement(count)))
    case UnlockDecrement(reg) => here.(core := core.(pc := UnlockTest(reg - 1)), count := reg - 1)
    case UnlockTest(reg) => here.(core := core.(pc := if reg <= 0 then UnlockZero else UnlockDone))
    case UnlockZero => here.(core := core.(pc := UnlockDone), count := 0)
    case UnlockDone =>
      Effect(Core(Outside, false, if core.depth == 0 then 0 else core.depth - 1), 0, count, owner, true)
  }

  /** The effect of an action: a core runs, begins a call, or loses its exclusive access for reasons outside the
      program. */
  function Act(s: State, a: Action): Effect
    requires Legal(s, a)
  {
    var core := s.cores[a.core];
    match a
    case Run(c) => RunCore(core, c, s.word, s.count, s.owner)
    case Enter(_, call) => Effect(core.(pc := LoadEx(call)), s.word, s.count, s.owner, false)
    case Lose(_) => Effect(core.(monitor := false), s.word, s.count, s.owner, false)
  }

  /** A store to the lock word closes every open exclusive access. */
  function Step(s: State, a: Action): State
    requires Legal(s, a)
  {
    var e := Act(s, a);
    State(e.word, e.count, e.owner,
          seq(|s.cores|, i requires 0 <= i < |s.cores| =>
            if i == a.core then e.core else if e.stored then s.cores[i].(monitor := false) else s.cores[i]))
  }

  /** Between a successful store-exclusive and the releasing store. */
  predicate Holds(core: Core)
  {
    !(core.pc.Outside? || core.pc.LoadEx? || core.pc.StoreEx?)
  }

  ghost predicate SpinInv(s: State)
  {
    && (s.word == 0 || s.word == 1)
    && (forall i :: 0 <= i < |s.cores| && Holds(s.cores[i]) ==> s.word == 1)
    && (forall i, j :: 0 <= i < |s.cores| && 0 <= j < |s.cores| && Holds(s.cores[i]) && Holds(s.cores[j]) ==> i == j)
    && (s.word == 1 ==> exists i :: 0 <= i < |s.cores| && Holds(s.cores[i]))
    && (forall i :: 0 <= i < |s.cores| && s.cores[i].monitor && s.cores[i].pc.StoreEx? ==> s.cores[i].pc.reg == s.word)
  }

  /** What an action does to the lock word: taken from zero with the exclusive access still open, released by its
      holder. */
  lemma WordEffect(s: State, a: Action)
    requires SpinInv(s) && Legal(s, a)
    ensures var core, e := s.cores[a.core], Act(s, a);
            && (!e.stored ==> e.word == s.word && (Holds(core) <==> Holds(e.core)))
            && (e.stored && Holds(core) ==> e.word == 0 && !Holds(e.core))
            && (e.stored && !Holds(core) ==> s.word == 0 && e.word == 1 && Holds(e.core))
            && (e.core.monitor && e.core.pc.StoreEx? ==> e.core.pc.reg == e.word)
  {
  }

  /** The spin lock: whatever core steps next, at most one core is inside, and the word says whether one is. */
  lemma SpinInvStep(s: State, a: Action)
    requires SpinInv(s) && Legal(s, a)
    ensures SpinInv(Step(s, a))
  {
    hide Act, RunCore, Holds;
    WordEffect(s, a);
    var t := Step(s, a);
    assert forall i :: 0 <= i < |s.cores| && i != a.core ==> t.cores[i].pc == s.cores[i].pc;
    SamePcHolds(s, t, a.core);
    if s.word == 1 {
      var i :| 0 <= i < |s.cores| && Holds(s.cores[i]);
      assert t.word == 1 ==> Holds(t.cores[i]);
    } else {
      assert t.word == 1 ==> Holds(t.cores[a.core]);
    }
  }

  lemma SamePcHolds(s: State, t: State, c: nat)
    requires |t.cores| == |s.cores|
    requires forall i :: 0 <= i < |s.cores| && i != c ==> t.cores[i].pc == s.cores[i].pc
    ensures forall i :: 0 <= i < |s.cores| && i != c ==> (Holds(t.cores[i]) <==> Holds(s.cores[i]))
  {
  }

  /** Core h is d deep in the malloc lock and no other core is in it. */
  ghost predicate OnlyDepth(s: State, h: nat, d: nat)
  {
    forall i :: 0 <= i < |s.cores| ==> s.cores[i].depth == if i == h then d else 0
  }

  ghost predicate NoDepth(s: State)
  {
    forall i :: 0 <= i < |s.cores| ==> s.cores[i].depth == 0
  }

  /** What holds of count and owner whenever no core is changing them. */
  ghost predicate Settled(s: State)
  {
    && s.count >= 0
    && if s.count == 0 then NoDepth(s) else s.owner < |s.cores| && OnlyDepth(s, s.owner, s.count)
  }

  /** What holds while core h, inside the spin lock, is at a given point. */
  ghost predicate AtPoint(s: State, h: nat)
    requires h < |s.cores|
  {
    match s.cores[h].pc
    case LockSetCount => Settled(s) && s.count == 0
    case LockSetOwner => NoDepth(s) && s.count == 1
    case LockReadOwner => Settled(s) && s.count > 0
    case LockReadAgain => Settled(s) && s.count > 0 && s.owner == h
    case LockIncrement(reg) => Settled(s) && s.count > 0 && s.owner == h && reg == s.count
    case LockDone => s.owner == h && s.count > 0 && OnlyDepth(s, h, s.count - 1)
    case UnlockDecrement(reg) => Settled(s) && reg == s.count
    case UnlockTest(reg) => s.owner == h && reg == s.count >= 0 && OnlyDepth(s, h, s.count + 1)
    case UnlockZero => s.owner == h && s.count == 0 && OnlyDepth(s, h, 1)
    case UnlockDone => s.owner == h && s.count >= 0 && OnlyDepth(s, h, s.count + 1)
    case _ => Settled(s)
  }

  /** A core in an unlock call still holds the malloc lock. */
  predicate Unlocking(pc: Pc)
  {
    || pc == LoadEx(Unlock) || (pc.StoreEx? && pc.call == Unlock)
    || pc.UnlockReadCount? || pc.UnlockDecrement? || pc.UnlockTest? || pc.UnlockZero? || pc.UnlockDone?
  }

  ghost predicate Inv(s: State)
  {
    && SpinInv(s)
    && (s.word == 0 ==> Settled(s))
    && (forall h :: 0 <= h < |s.cores| && Holds(s.cores[h]) ==> AtPoint(s, h))
    && (forall i :: 0 <= i < |s.cores| && Unlocking(s.cores[i].pc) ==> s.cores[i].depth > 0)
  }

  lemma InvInit(n: nat)
    ensures Inv(Init(n))
  {
  }

  /** An action of a core outside the spin lock leaves count, owner and depths, and enters only where they are
      settled. */
  lemma OutsideEffect(s: State, a: Action)
    requires Inv(s) && Legal(s, a) && !(a.Run? && Holds(s.cores[a.core]))
    ensures var core, e := s.cores[a.core], Act(s, a);
            && e.count == s.count && e.owner == s.owner && e.core.depth == core.depth
            && (Unlocking(e.core.pc) ==> core.depth > 0)
            && (Holds(core) ==> e.core.pc == core.pc && !e.stored)
            && (Holds(e.core) && !Holds(core) ==> e.core.pc == LockReadCount || e.core.pc == UnlockReadCount)
  {
  }

  lemma SameDepths(s: State, t: State)
    requires |t.cores| == |s.cores|
    requires forall i :: 0 <= i < |s.cores| ==> t.cores[i].depth == s.cores[i].depth
    ensures forall i, d :: OnlyDepth(s, i, d) ==> OnlyDepth(t, i, d)
    ensures NoDepth(s) ==> NoDepth(t) && forall i :: OnlyDepth(t, i, 0)
  {
  }

  /** Points depend only on count, owner, the depths and the point of the core itself. */
  lemma SameAtPoint(s: State, t: State, h: nat)
    requires |t.cores| == |s.cores| && t.count == s.count && t.owner == s.owner
    requires forall i :: 0 <= i < |s.cores| ==> t.cores[i].depth == s.cores[i].depth
    ensures Settled(s) ==> Settled(t)
    ensures h < |s.cores| && t.cores[h].pc == s.cores[h].pc && AtPoint(s, h) ==> AtPoint(t, h)
  {
    SameDepths(s, t);
  }

  /** A core that does not hold the spin lock changes nothing that the malloc lock depends on. */
  lemma InvStepOutside(s: State, a: Action)
    requires Inv(s) && Legal(s, a) && !(a.Run? && Holds(s.cores[a.core]))
    ensures Inv(Step(s, a))
  {
    hide RunCore, Act, Settled, SpinInv, Holds, Unlocking;
    var t := Step(s, a);
    SpinInvStep(s, a);
    OutsideEffect(s, a);
    WordEffect(s, a);
    SamePcHolds(s, t, a.core);
    forall h | 0 <= h < |t.cores| && Holds(t.cores[h])
      ensures AtPoint(t, h)
    {
      SameAtPoint(s, t, h);
    }
    SameAtPoint(s, t, a.core);
  }

  /** Where a core in a lock call, or in an unlock call, goes next inside the spin lock. */
  predicate Locking(pc: Pc)
  {
    !Unlocking(pc) && !pc.Outside? && !pc.LoadEx? && !pc.StoreEx?
  }

  /** The steps of a lock call inside the spin lock: the assertion of each point leads to that of the next. */
  lemma LockPointStep(s: State, c: nat)
    requires Legal(s, Run(c)) && AtPoint(s, c)
    requires Locking(s.cores[c].pc) && !s.cores[c].pc.LockDone?
    ensures var t := Step(s, Run(c));
            && !Unlocking(t.cores[c].pc)
            && if Holds(t.cores[c]) then AtPoint(t, c) else Settled(t)
  {
    hide OnlyDepth, NoDepth;
    var t := Step(s, Run(c));
    SameDepths(s, t);
  }

  /** The steps of an unlock call inside the spin lock. */
  lemma UnlockPointStep(s: State, c: nat)
    requires Legal(s, Run(c)) && Holds(s.cores[c]) && AtPoint(s, c)
    requires Unlocking(s.cores[c].pc) && s.cores[c].depth > 0 && !s.cores[c].pc.UnlockDone?
    ensures var t := Step(s, Run(c)); t.cores[c].depth > 0 && AtPoint(t, c)
  {
    var t := Step(s, Run(c));
    SameDepths(s, t);
  }

  /** A step inside the spin lock that returns from no call leads from the assertion of its point to the next. */
  lemma PointStep(s: State, c: nat)
    requires Legal(s, Run(c)) && Holds(s.cores[c]) && AtPoint(s, c)
    requires Unlocking(s.cores[c].pc) ==> s.cores[c].depth > 0
    requires !s.cores[c].pc.LockDone? && !s.cores[c].pc.UnlockDone?
    ensures var t := Step(s, Run(c));
            && (Unlocking(t.cores[c].pc) ==> t.cores[c].depth > 0)
            && if Holds(t.cores[c]) then AtPoint(t, c) else Settled(t)
  {
    hide AtPoint, Settled;
    if Unlocking(s.cores[c].pc) {
      UnlockPointStep(s, c);
    } else {
      LockPointStep(s, c);
    }
  }

  /** The steps that return from a call: the depth becomes the count. */
  lemma ReturnStep(s: State, c: nat)
    requires Legal(s, Run(c)) && AtPoint(s, c)
    requires s.cores[c].pc.LockDone? || s.cores[c].pc.UnlockDone?
    ensures Settled(Step(s, Run(c)))
  {
    var t := Step(s, Run(c));
    assert OnlyDepth(t, c, t.count);
    assert t.count == 0 ==> NoDepth(t);
  }

  /** The core that holds the spin lock takes its next step. */
  lemma InvStepInside(s: State, c: nat)
    requires Inv(s) && c < |s.cores| && Holds(s.cores[c])
    ensures Inv(Step(s, Run(c)))
  {
    hide RunCore, Act, Settled, SpinInv, Holds, Unlocking, AtPoint;
    var t := Step(s, Run(c));
    SpinInvStep(s, Run(c));
    SamePcHolds(s, t, c);
    WordEffect(s, Run(c));
    OneHolds(s, c);
    if s.cores[c].pc.LockDone? || s.cores[c].pc.UnlockDone? {
      InsideEffect(s, c);
      ReturnStep(s, c);
    } else {
      PointStep(s, c);
    }
  }

  lemma OneHolds(s: State, c: nat)
    requires SpinInv(s) && c < |s.cores| && Holds(s.cores[c])
    ensures forall i :: 0 <= i < |s.cores| && i != c ==> !Holds(s.cores[i])
    ensures s.word == 1
  {
  }

  lemma InsideEffect(s: State, c: nat)
    requires Legal(s, Run(c)) && (s.cores[c].pc.LockDone? || s.cores[c].pc.UnlockDone?)
    ensures Act(s, Run(c)).core.pc == Outside && !Holds(Act(s, Run(c)).core)
    ensures !Unlocking(Outside)
  {
  }

  lemma InvStep(s: State, a: Action)
    requires Inv(s) && Legal(s, a)
    ensures Inv(Step(s, a))
  {
    if a.Run? && Holds(s.cores[a.core]) {
      InvStepInside(s, a.core);
    } else {
      InvStepOutside(s, a);
    }
  }

  /** A run from a state: every action is legal where it happens. */
  ghost predicate LegalRun(s: State, run: seq<Action>)
    decreases |run|
  {
    run == [] || (Legal(s, run[0]) && LegalRun(Step(s, run[0]), run[1..]))
  }

  ghost function After(s: State, run: seq<Action>): State
    requires LegalRun(s, run)
    decreases |run|
  {
    if run == [] then s else After(Step(s, run[0]), run[1..])
  }

  lemma {:induction false} InvRun(s: State, run: seq<Action>)
    requires Inv(s) && LegalRun(s, run)
    ensures Inv(After(s, run))
    decreases |run|
  {
    if run != [] {
      InvStep(s, run[0]);
      InvRun(Step(s, run[0]), run[1..]);
    }
  }

  /**
    For any number of cores and any interleaving: at most one core is between a successful store-exclusive
    and the releasing store; at most one core is inside the malloc lock; and whenever the spin lock is free,
    the count is the nesting depth of the core inside, which the owner names.
   */
  lemma Safety(n: nat, run: seq<Action>)
    requires LegalRun(Init(n), run)
    ensures var s := After(Init(n), run);
            && (forall i, j :: 0 <= i < |s.cores| && 0 <= j < |s.cores| && Holds(s.cores[i]) && Holds(s.cores[j]) ==>
              i == j)
            && (forall i, j ::
                  0 <= i < |s.cores| && 0 <= j < |s.cores| && s.cores[i].depth > 0 && s.cores[j].depth > 0 ==> i == j)
            && (s.word == 0 ==> forall i :: 0 <= i < |s.cores| && s.cores[i].depth > 0 ==>
              s.owner == i && s.count == s.cores[i].depth)
            && (s.word == 0 && NoDepth(s) ==> s.count == 0)
  {
    InvInit(n);
    InvRun(Init(n), run);
    OneInside(After(Init(n), run));
  }

  lemma OneInside(s: State)
    requires Inv(s)
    ensures forall i, j :: 0 <= i < |s.cores| && 0 <= j < |s.cores| && s.cores[i].depth > 0 && s.cores[j].depth > 0 ==>
              i == j
    ensures s.word == 0 && NoDepth(s) ==> s.count == 0
  {
    if s.word == 1 {
      var h :| 0 <= h < |s.cores| && Holds(s.cores[h]);
      assert AtPoint(s, h);
    } else if s.count > 0 {
      assert s.cores[s.owner].depth > 0;
    }
  }

  /** The atomic recursive lock: a core enters when no other core is inside, and leaves one level at a time. */
  ghost predicate AtomicStep(d: seq<nat>, e: seq<nat>, c: nat)
  {
    || d == e
    || (c < |d| && (forall i :: 0 <= i < |d| && i != c ==> d[i] == 0) && e == d[c := d[c] + 1])
    || (c < |d| && d[c] > 0 && e == d[c := d[c] - 1])
  }

  ghost function Depths(s: State): seq<nat>
  {
    seq(|s.cores|, i requires 0 <= i < |s.cores| => s.cores[i].depth)
  }

  /** Every step of the machine is a step of the atomic recursive lock by the same core, or none. */
  lemma Refines(s: State, a: Action)
    requires Inv(s) && Legal(s, a)
    ensures AtomicStep(Depths(s), Depths(Step(s, a)), a.core)
  {
    var t, c := Step(s, a), a.core;
    if a.Run? && s.cores[c].pc.LockDone? {
      assert AtPoint(s, c);
      assert Depths(t) == Depths(s)[c := s.cores[c].depth + 1];
    } else if a.Run? && s.cores[c].pc.UnlockDone? {
      assert Depths(t) == Depths(s)[c := s.cores[c].depth - 1];
    } else {
      assert Depths(t) == Depths(s);
    }
  }

  // ---- progress ----

  /** Core c takes k steps in a row, without losing its exclusive access. */
  ghost function Alone(s: State, c: nat, k: nat): (t: State)
    requires c < |s.cores|
    ensures |t.cores| == |s.cores|
    decreases k
  {
    if k == 0 then s else Alone(Step(s, Run(c)), c, k - 1)
  }

  lemma {:induction false} AloneMore(s: State, c: nat, j: nat, k: nat)
    requires c < |s.cores|
    ensures Alone(Alone(s, c, j), c, k) == Alone(s, c, j + k)
    decreases j
  {
    if j > 0 { AloneMore(Step(s, Run(c)), c, j - 1, k); }
  }

  /** The other cores are where they were, as deep as they were. */
  ghost predicate OthersStay(s: State, t: State, c: nat)
  {
    && |t.cores| == |s.cores|
    && forall i :: 0 <= i < |s.cores| && i != c ==>
         t.cores[i].pc == s.cores[i].pc && t.cores[i].depth == s.cores[i].depth
  }

  /** Where a core is and what the shared variables are; the rest of the state is as in s. */
  ghost predicate Reached(s: State, t: State, c: nat, pc: Pc, depth: int, word: int, count: int, owner: nat)
    requires c < |s.cores|
  {
    && OthersStay(s, t, c) && t.cores[c].pc == pc && t.cores[c].depth == depth
    && t.word == word && t.count == count && t.owner == owner
  }

  /** One more step of a core. */
  lemma OneMore(s: State, c: nat, k: nat)
    requires c < |s.cores|
    ensures var t := Alone(s, c, k);
            var e := RunCore(t.cores[c], c, t.word, t.count, t.owner);
            var u := Alone(s, c, k + 1);
            && u.cores[c] == e.core && u.word == e.word && u.count == e.count && u.owner == e.owner
            && (OthersStay(s, t, c) ==> OthersStay(s, u, c))
  {
    hide RunCore;
    AloneMore(s, c, k, 1);
    var t := Alone(s, c, k);
    assert Alone(t, c, 1) == Alone(Step(t, Run(c)), c, 0) == Step(t, Run(c));
  }

  /** A free spin lock is taken in two steps. */
  lemma Acquires(s: State, c: nat, call: Call)
    requires c < |s.cores| && s.word == 0 && s.cores[c].pc == LoadEx(call)
    ensures Reached(s, Alone(s, c, 2), c, if call == Lock then LockReadCount else UnlockReadCount, s.cores[c].depth, 1,
              s.count, s.owner)
  {
    hide Alone, Step;
    assert Alone(s, c, 0) == s by { AloneNone(s, c); }
    OneMore(s, c, 0);
    OneMore(s, c, 1);
  }

  lemma AloneNone(s: State, c: nat)
    requires c < |s.cores|
    ensures Alone(s, c, 0) == s
  {
  }

  /** From a point inside the spin lock a core goes where its next memory access leads. */
  lemma Goes(s: State, c: nat, k: nat, pc: Pc, depth: nat, count: int, owner: nat)
    requires c < |s.cores| && Reached(s, Alone(s, c, k), c, pc, depth, 1, count, owner)
    requires Holds(Core(pc, false, depth))
    ensures var e := RunCore(Core(pc, false, depth), c, 1, count, owner);
            Reached(s, Alone(s, c, k + 1), c, e.core.pc, e.core.depth, e.word, e.count, e.owner)
  {
    hide Alone, Step;
    OneMore(s, c, k);
  }

  /** Where a lock call leads from its first access inside the spin lock. */
  lemma LockInside(s: State, c: nat, k: nat, depth: nat, count: int, owner: nat)
    requires c < |s.cores| && Reached(s, Alone(s, c, k), c, LockReadCount, depth, 1, count, owner) && count >= 0
    ensures count == 0 ==> Reached(s, Alone(s, c, k + 4), c, Outside, depth + 1, 0, 1, c)
    ensures count > 0 && owner == c ==> Reached(s, Alone(s, c, k + 5), c, Outside, depth + 1, 0, count + 1, c)
    ensures count > 0 && owner != c ==> Reached(s, Alone(s, c, k + 3), c, LoadEx(Lock), depth, 0, count, owner)
  {
    hide Alone, Step, Reached;
    Goes(s, c, k, LockReadCount, depth, count, owner);
    if count == 0 {
      Goes(s, c, k + 1, LockSetCount, depth, 0, owner);
      Goes(s, c, k + 2, LockSetOwner, depth, 1, owner);
      Goes(s, c, k + 3, LockDone, depth, 1, c);
    } else {
      Goes(s, c, k + 1, LockReadOwner, depth, count, owner);
      if owner == c {
        Goes(s, c, k + 2, LockReadAgain, depth, count, c);
        Goes(s, c, k + 3, LockIncrement(count), depth, count, c);
        Goes(s, c, k + 4, LockDone, depth, count + 1, c);
      } else {
        Goes(s, c, k + 2, LockRetry, depth, count, owner);
      }
    }
  }

  /** And an unlock call of the core that has the lock. */
  lemma UnlockInside(s: State, c: nat, k: nat, depth: nat, count: int)
    requires c < |s.cores| && Reached(s, Alone(s, c, k), c, UnlockReadCount, depth, 1, count, c)
    requires count > 0 && depth > 0
    ensures Reached(s, Alone(s, c, if count == 1 then k + 5 else k + 4), c, Outside, depth - 1, 0, count - 1, c)
  {
    hide Alone, Step, Reached;
    Goes(s, c, k, UnlockReadCount, depth, count, c);
    Goes(s, c, k + 1, UnlockDecrement(count), depth, count, c);
    Goes(s, c, k + 2, UnlockTest(count - 1), depth, count - 1, c);
    if count == 1 {
      Goes(s, c, k + 3, UnlockZero, depth, 0, c);
      Goes(s, c, k + 4, UnlockDone, depth, 0, c);
    } else {
      Goes(s, c, k + 3, UnlockDone, depth, count - 1, c);
    }
  }

  /**
    With the spin lock free, a lock call of a core that runs alone returns one level deeper if the malloc lock is free
    (after six steps) or its own (after seven); if another core has it, the call comes back after five steps to where
    it began and has changed nothing.
   */
  lemma LockProgress(s: State, c: nat)
    requires Inv(s) && s.word == 0 && c < |s.cores| && s.cores[c].pc == Outside
    ensures var t, d := Step(s, Enter(c, Lock)), s.cores[c].depth;
            && |t.cores| == |s.cores|
            && if s.count == 0 then Reached(s, Alone(t, c, 6), c, Outside, d + 1, 0, 1, c)
               else if s.owner == c then Reached(s, Alone(t, c, 7), c, Outside, d + 1, 0, s.count + 1, c)
               else Reached(s, Alone(t, c, 5), c, LoadEx(Lock), d, 0, s.count, s.owner)
  {
    hide Alone;
    var t := Step(s, Enter(c, Lock));
    Acquires(t, c, Lock);
    LockInside(t, c, 2, s.cores[c].depth, s.count, s.owner);
  }

  /** An unlock call returns one level less deep, after six steps, or after seven from the last level. */
  lemma UnlockProgress(s: State, c: nat)
    requires Inv(s) && s.word == 0 && c < |s.cores| && s.cores[c].pc == Outside && s.cores[c].depth > 0
    ensures var t, d := Step(s, Enter(c, Unlock)), s.cores[c].depth;
            && |t.cores| == |s.cores| && s.count == d && s.owner == c
            && Reached(s, Alone(t, c, if d == 1 then 7 else 6), c, Outside, d - 1, 0, d - 1, c)
  {
    hide Alone;
    var t := Step(s, Enter(c, Unlock));
    Acquires(t, c, Unlock);
    UnlockInside(t, c, 2, s.cores[c].depth, s.count);
  }

  // ---- no reachable state is a deadlock ----

  /** A legal run leads from s to t without any exclusive access being lost from outside. */
  ghost predicate LeadsTo(s: State, run: seq<Action>, t: State)
  {
    LegalRun(s, run) && After(s, run) == t && forall k :: 0 <= k < |run| ==> !run[k].Lose?
  }

  lemma {:induction false} LeadsOn(s: State, a: seq<Action>, t: State, b: seq<Action>, u: State)
    requires LeadsTo(s, a, t) && LeadsTo(t, b, u)
    ensures LeadsTo(s, a + b, u)
    decreases |a|
  {
    hide Step, Legal;
    if a == [] {
      assert a + b == b;
    } else {
      LeadsOn(Step(s, a[0]), a[1..], t, b, u);
      assert a + b == [a[0]] + (a[1..] + b) && (a + b)[1..] == a[1..] + b;
    }
  }

  lemma LeadsStep(s: State, a: Action)
    requires Legal(s, a) && !a.Lose?
    ensures LeadsTo(s, [a], Step(s, a))
  {
    hide Step;
    var t := Step(s, a);
    assert [a][1..] == [] && LegalRun(t, []) && After(t, []) == t;
  }

  /** A core that runs alone. */
  lemma {:induction false} AloneLeads(s: State, c: nat, k: nat) returns (run: seq<Action>)
    requires c < |s.cores|
    ensures LeadsTo(s, run, Alone(s, c, k))
    decreases k
  {
    hide LegalRun, After;
    if k == 0 {
      run := [];
      assert LegalRun(s, []) && After(s, []) == s by { NoRun(s); }
    } else {
      LeadsStep(s, Run(c));
      run := AloneLeads(Step(s, Run(c)), c, k - 1);
      LeadsOn(s, [Run(c)], Step(s, Run(c)), run, Alone(s, c, k));
      run := [Run(c)] + run;
    }
  }

  lemma NoRun(s: State)
    ensures LegalRun(s, []) && After(s, []) == s
  {
  }

  lemma LeadsInv(s: State, run: seq<Action>, t: State)
    requires Inv(s) && LeadsTo(s, run, t)
    ensures Inv(t)
  {
    hide Inv;
    InvRun(s, run);
  }

  /** How many accesses at most a core makes before it releases the spin lock. */
  function Left(pc: Pc): nat
  {
    match pc
    case LockReadCount => 5
    case LockReadOwner => 4
    case LockReadAgain => 3
    case LockIncrement(_) => 2
    case LockSetCount => 3
    case LockSetOwner => 2
    case LockDone => 1
    case LockRetry => 1
    case UnlockReadCount => 5
    case UnlockDecrement(_) => 4
    case UnlockTest(_) => 3
    case UnlockZero => 2
    case UnlockDone => 1
    case _ => 0
  }

  lemma LeftLess(core: Core, c: nat, word: int, count: int, owner: nat)
    requires Holds(core)
    ensures var e := RunCore(core, c, word, count, owner);
            if Left(core.pc) == 1 then e.word == 0 && !Holds(e.core)
            else Left(e.core.pc) < Left(core.pc) && Holds(e.core)
  {
  }

  /** The core inside the spin lock comes out of it within five steps. */
  lemma Releases(s: State, h: nat) returns (k: nat)
    requires h < |s.cores| && Holds(s.cores[h])
    ensures k <= 5 && Alone(s, h, k).word == 0 && !Holds(Alone(s, h, k).cores[h]) && OthersStay(s, Alone(s, h, k), h)
  {
    k := ReleasesIn(s, h, 0);
  }

  lemma {:induction false} ReleasesIn(s: State, h: nat, j: nat) returns (k: nat)
    requires h < |s.cores| && OthersStay(s, Alone(s, h, j), h) && Holds(Alone(s, h, j).cores[h])
    requires j + Left(Alone(s, h, j).cores[h].pc) <= 5
    ensures k <= 5 && Alone(s, h, k).word == 0 && !Holds(Alone(s, h, k).cores[h]) && OthersStay(s, Alone(s, h, k), h)
    decreases 5 - j
  {
    hide Alone, RunCore, Left, Holds;
    var t := Alone(s, h, j);
    OneMore(s, h, j);
    LeftLess(t.cores[h], h, t.word, t.count, t.owner);
    LeftBounds(t.cores[h]);
    if Left(t.cores[h].pc) == 1 {
      k := j + 1;
    } else {
      k := ReleasesIn(s, h, j + 1);
    }
  }

  lemma LeftBounds(core: Core)
    requires Holds(core)
    ensures 1 <= Left(core.pc) <= 5
  {
  }

  /** A core that waits for a free spin lock gets it within three steps. */
  lemma GetsIn(s: State, c: nat, call: Call) returns (k: nat)
    requires c < |s.cores| && s.word == 0 && (s.cores[c].pc == LoadEx(call) || s.cores[c].pc.StoreEx?)
    requires s.cores[c].pc.StoreEx? ==> s.cores[c].pc.call == call
    ensures Reached(s, Alone(s, c, k), c, if call == Lock then LockReadCount else UnlockReadCount, s.cores[c].depth, 1,
              s.count, s.owner)
  {
    hide Alone, Step;
    AloneNone(s, c);
    if s.cores[c].pc.LoadEx? {
      Acquires(s, c, call);
      k := 2;
    } else {
      OneMore(s, c, 0);
      k := 1;
      if !(s.cores[c].pc.reg == 0 && s.cores[c].monitor) {
        var t := Alone(s, c, 1);
        Acquires(t, c, call);
        AloneMore(s, c, 1, 2);
        k := 3;
      }
    }
  }

  /** The call of a core that may go on returns. */
  lemma Finishes(s: State, c: nat) returns (k: nat)
    requires Inv(s) && s.word == 0 && c < |s.cores| && s.cores[c].pc != Outside
    requires s.count == 0 || s.owner == c
    ensures Alone(s, c, k).cores[c].pc == Outside && Alone(s, c, k).word == 0 && OthersStay(s, Alone(s, c, k), c)
    ensures Alone(s, c, k).owner == c
  {
    hide Alone, Step;
    assert Settled(s) && !Holds(s.cores[c]);
    var call := s.cores[c].pc.call;
    k := GetsIn(s, c, call);
    if call == Lock {
      LockInside(s, c, k, s.cores[c].depth, s.count, s.owner);
      k := if s.count == 0 then k + 4 else k + 5;
    } else {
      assert Unlocking(s.cores[c].pc) && s.cores[c].depth > 0;
      assert s.count > 0;
      UnlockInside(s, c, k, s.cores[c].depth, s.count);
      k := if s.count == 1 then k + 5 else k + 4;
    }
  }

  /** The core that has the malloc lock can give it back, level by level. */
  lemma {:induction false} GivesBack(s: State, o: nat) returns (run: seq<Action>, t: State)
    requires Inv(s) && s.word == 0 && o < |s.cores| && s.cores[o].pc == Outside && (s.count == 0 || s.owner == o)
    ensures LeadsTo(s, run, t) && t.word == 0 && t.count == 0 && OthersStay(s, t, o)
    decreases s.count
  {
    hide Alone, Step, LegalRun, After, RunCore;
    assert Settled(s);
    if s.count == 0 {
      NoRun(s);
      run, t := [], s;
    } else {
      var d := s.cores[o].depth;
      assert s.count == d;
      UnlockProgress(s, o);
      var u := Step(s, Enter(o, Unlock));
      LeadsStep(s, Enter(o, Unlock));
      var k := if d == 1 then 7 else 6;
      run := AloneLeads(u, o, k);
      var v := Alone(u, o, k);
      LeadsOn(s, [Enter(o, Unlock)], u, run, v);
      run := [Enter(o, Unlock)] + run;
      LeadsInv(s, run, v);
      var more;
      more, t := GivesBack(v, o);
      LeadsOn(s, run, v, more, t);
      run := run + more;
    }
  }

  /** The spin lock can be free again. */
  lemma SpinFree(s: State) returns (run: seq<Action>, t: State)
    requires Inv(s)
    ensures LeadsTo(s, run, t) && Inv(t) && t.word == 0 && |t.cores| == |s.cores|
  {
    hide Alone, Step, LegalRun, After, RunCore, AtPoint, Settled;
    if s.word == 0 {
      NoRun(s);
      run, t := [], s;
    } else {
      var h :| 0 <= h < |s.cores| && Holds(s.cores[h]);
      var k := Releases(s, h);
      run := AloneLeads(s, h, k);
      t := Alone(s, h, k);
      LeadsInv(s, run, t);
    }
  }

  /** With the spin lock free, the malloc lock can be free, or held by the core that waits. */
  lemma MallocFree(s: State, c: nat) returns (run: seq<Action>, t: State)
    requires Inv(s) && s.word == 0 && c < |s.cores|
    ensures LeadsTo(s, run, t) && Inv(t) && t.word == 0 && |t.cores| == |s.cores| && (t.count == 0 || t.owner == c)
    ensures t.cores[c].pc == s.cores[c].pc
  {
    hide Alone, Step, LegalRun, After, RunCore, AtPoint, SpinInv;
    NoRun(s);
    run, t := [], s;
    assert Settled(s);
    var o := s.owner;
    if s.count > 0 && o != c {
      if s.cores[o].pc != Outside {
        var k := Finishes(s, o);
        run := AloneLeads(s, o, k);
        t := Alone(s, o, k);
        LeadsInv(s, run, t);
      }
      var more, u := GivesBack(t, o);
      LeadsOn(s, run, t, more, u);
      run, t := run + more, u;
      LeadsInv(s, run, t);
    }
  }

  /**
    No reachable state is a deadlock: for any number of cores and after any interleaving, every core that is in a lock
    or unlock call can still return from it, without any help from outside.
   */
  lemma NoDeadlock(n: nat, run: seq<Action>, c: nat) returns (more: seq<Action>, t: State)
    requires LegalRun(Init(n), run) && c < n
    ensures LeadsTo(After(Init(n), run), more, t) && c < |t.cores| && t.cores[c].pc == Outside
  {
    hide Alone, Step, LegalRun, After, RunCore, Inv;
    var s := After(Init(n), run);
    InvInit(n);
    InvRun(Init(n), run);
    CoresKept(Init(n), run);
    more, t := SpinFree(s);
    if t.cores[c].pc != Outside {
      var m, u := MallocFree(t, c);
      LeadsOn(s, more, t, m, u);
      var k := Finishes(u, c);
      var r := AloneLeads(u, c, k);
      LeadsOn(s, more + m, u, r, Alone(u, c, k));
      more, t := more + m + r, Alone(u, c, k);
    }
  }

  lemma {:induction false} CoresKept(s: State, run: seq<Action>)
    requires LegalRun(s, run)
    ensures |After(s, run).cores| == |s.cores|
    decreases |run|
  {
    if run != [] { CoresKept(Step(s, run[0]), run[1..]); }
  }
}
