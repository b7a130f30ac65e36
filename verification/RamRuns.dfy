/** The boot allocator as a transition system over what is free, what is avoided and which blocks
    have been handed out, and exactly which runs of it are safe. */
module RamRuns {
  import opened Ranges

  /** `next` is where the early area continues. */
  datatype State = State(free: iset<int>, avoided: iset<int>, given: seq<Range>, next: nat)

  datatype Op =
    | Supply(m: Range)          // memory put on the free list
    | Avoid(m: Range)           // avoid_ram
    | Withdraw(m: Range)        // alloc_ram at an address the caller names
    | Allocate(m: Range)        // a block picked by a search and taken off the free list
    | Workspace(m: Range)       // ws_alloc: a block picked by a search and avoided from then on
    | EarlyWorkspace(m: Range)  // ws_alloc while the free list is empty: the next early bytes

  ghost function Bytes(m: Range): iset<int> { Span(m.addr, m.End()) }

  /** A block from a search is free and not avoided. */
  ghost predicate Available(s: State, m: Range) {
    Bytes(m) <= s.free && Bytes(m) !! s.avoided
  }

  ghost predicate NotGiven(s: State, m: Range) {
    forall i :: 0 <= i < |s.given| ==> Bytes(s.given[i]) !! Bytes(m)
  }

  /** Memory may be supplied if it holds no block that a search could find again. Workspace that
      came from the early area before is avoided, so it may lie in the memory. */
  ghost predicate MaySupply(s: State, m: Range) {
    forall i :: 0 <= i < |s.given| ==> Bytes(s.given[i]) * Bytes(m) <= s.avoided
  }

  ghost predicate Enabled(s: State, op: Op) {
    match op
    case Supply(m) => MaySupply(s, m)
    case Avoid(m) => true
    case Withdraw(m) => true
    case Allocate(m) => Available(s, m)
    case Workspace(m) => Available(s, m)
    case EarlyWorkspace(m) => s.free == iset{} && m.addr == s.next
  }

  ghost function Next(s: State, op: Op): State {
    match op
    case Supply(m) => s.(free := s.free + Bytes(m))
    case Avoid(m) => s.(avoided := s.avoided + Bytes(m))
    case Withdraw(m) => s.(free := s.free - Bytes(m))
    case Allocate(m) => s.(free := s.free - Bytes(m), given := s.given + [m])
    case Workspace(m) => s.(avoided := s.avoided + Bytes(m), given := s.given + [m])
    case EarlyWorkspace(m) => s.(avoided := s.avoided + Bytes(m), given := s.given + [m], next := m.End())
  }

  ghost predicate Step(s: State, op: Op, t: State) {
    Enabled(s, op) && t == Next(s, op)
  }

  function Front(ops: seq<Op>): seq<Op>
    requires ops != []
  {
    ops[..|ops| - 1]
  }

  function Last(ops: seq<Op>): Op
    requires ops != []
  {
    ops[|ops| - 1]
  }

  /** The state after some steps. */
  ghost function After(s: State, ops: seq<Op>): State
    decreases |ops|
  {
    if ops == [] then s else Next(After(s, Front(ops)), Last(ops))
  }

  ghost predicate Possible(s: State, ops: seq<Op>)
    decreases |ops|
  {
    ops == [] || (Possible(s, Front(ops)) && Enabled(After(s, Front(ops)), Last(ops)))
  }

  ghost predicate Run(s: State, ops: seq<Op>, t: State) {
    Possible(s, ops) && t == After(s, ops)
  }

  lemma {:induction false} RunConcat(s: State, a: seq<Op>, b: seq<Op>)
    requires Possible(s, a) && Possible(After(s, a), b)
    ensures Possible(s, a + b) && After(s, a + b) == After(After(s, a), b)
    decreases |b|
  {
    if b == [] {
      assert a + b == a;
    } else {
      RunConcat(s, a, Front(b));
      assert Front(a + b) == a + Front(b);
    }
  }

  lemma RunThen(s: State, ops: seq<Op>, m: State, op: Op, t: State)
    requires Run(s, ops, m) && Step(m, op, t)
    ensures Run(s, ops + [op], t)
  {
    assert Front(ops + [op]) == ops;
  }

  lemma RunOne(s: State, op: Op, t: State)
    requires Step(s, op, t)
    ensures Run(s, [op], t)
  {
    RunThen(s, [], s, op, t);
    assert [] + [op] == [op];
  }

  /** No two blocks share an address. */
  ghost predicate Apart(given: seq<Range>) {
    forall i, j :: 0 <= i < j < |given| ==> Bytes(given[i]) !! Bytes(given[j])
  }

  /** No block could be picked again: none of its addresses is free without being avoided. */
  ghost predicate Kept(s: State) {
    forall i :: 0 <= i < |s.given| ==> Bytes(s.given[i]) !! (s.free - s.avoided)
  }

  ghost predicate Safe(s: State) { Apart(s.given) && Kept(s) }

  /** The blocks stay apart in every step but one: an early block must be new. */
  lemma StepSafe(s: State, op: Op, t: State)
    requires Safe(s) && Step(s, op, t)
    ensures Kept(t) && s.given <= t.given
    ensures Safe(t) <==> (op.EarlyWorkspace? ==> NotGiven(s, op.m))
    ensures op.Allocate? || op.Workspace? ==> NotGiven(s, op.m) && Bytes(op.m) !! s.avoided
  {
    StepKept(s, op);
    if op.Allocate? || op.Workspace? {
      assert Bytes(op.m) <= s.free - s.avoided;
    }
    if op.Allocate? || op.Workspace? || op.EarlyWorkspace? {
      ApartMore(s, op.m);
    }
  }

  lemma StepKept(s: State, op: Op)
    requires Kept(s) && Enabled(s, op)
    ensures Kept(Next(s, op))
  {
    var t := Next(s, op);
    forall i | 0 <= i < |t.given| ensures Bytes(t.given[i]) !! (t.free - t.avoided) {
      if i < |s.given| {
        assert t.given[i] == s.given[i];
      }
    }
  }

  lemma ApartMore(s: State, m: Range)
    ensures Apart(s.given + [m]) <==> Apart(s.given) && NotGiven(s, m)
  {
    var given := s.given + [m];
    if Apart(given) {
      forall i, j | 0 <= i < j < |s.given| ensures Bytes(s.given[i]) !! Bytes(s.given[j]) {
        assert Bytes(given[i]) !! Bytes(given[j]);
      }
      forall i | 0 <= i < |s.given| ensures Bytes(s.given[i]) !! Bytes(m) {
        assert Bytes(given[i]) !! Bytes(given[|s.given|]);
      }
    }
  }

  ghost predicate NoEarly(ops: seq<Op>) { forall k :: 0 <= k < |ops| ==> !ops[k].EarlyWorkspace? }

  /** From a safe state every run without early workspace ends in a safe state, and no block is
      ever taken back. */
  lemma {:induction false} RunSafe(s: State, ops: seq<Op>, t: State)
    requires Safe(s) && Run(s, ops, t) && NoEarly(ops)
    ensures Safe(t) && s.given <= t.given
    decreases |ops|
  {
    if ops != [] {
      var m := After(s, Front(ops));
      RunSafe(s, Front(ops), m);
      StepSafe(m, Last(ops), t);
    }
  }

  /** The allocator as ws_init leaves it: nothing is free and nothing has been handed out. */
  ghost function Start(avoided: iset<int>, next: nat): State { State(iset{}, avoided, [], next) }

  /** All memory put on the free list during a run. */
  ghost function Supplied(ops: seq<Op>): iset<int>
    decreases |ops|
  {
    if ops == [] then iset{}
    else Supplied(Front(ops)) + (if Last(ops).Supply? then Bytes(Last(ops).m) else iset{})
  }

  ghost predicate InBlock(given: seq<Range>, x: int) {
    exists i :: 0 <= i < |given| && x in Bytes(given[i])
  }

  /** The addresses of all blocks handed out. */
  ghost function Blocks(given: seq<Range>): iset<int> { iset x: int | InBlock(given, x) }

  /** The free memory a caller has taken by its address, before a search could hand it out. */
  ghost function Withdrawn(s: State, ops: seq<Op>): iset<int>
    decreases |ops|
  {
    if ops == [] then iset{}
    else
      var before, was := After(s, Front(ops)), Withdrawn(s, Front(ops));
      match Last(ops)
      case Supply(m) => was - Bytes(m)
      case Withdraw(m) => was + (Bytes(m) * before.free - Blocks(before.given))
      case _ => was
  }

  /** What is left of the memory ever supplied: it is free, or taken by its address, or handed
      out. A block lies below the end of the early area or in supplied memory. */
  ghost predicate Accounted(s: State, supplied: iset<int>, withdrawn: iset<int>) {
    && s.free <= supplied <= s.free + withdrawn + Blocks(s.given)
    && withdrawn <= supplied && s.free !! withdrawn
    && (forall i :: 0 <= i < |s.given| ==>
          s.given[i].End() <= s.next || Bytes(s.given[i]) <= supplied - withdrawn)
  }

  lemma BlocksMore(given: seq<Range>, m: Range)
    ensures Blocks(given + [m]) == Blocks(given) + Bytes(m)
  {
    forall x ensures InBlock(given + [m], x) <==> InBlock(given, x) || x in Bytes(m) {
      if InBlock(given, x) {
        var i :| 0 <= i < |given| && x in Bytes(given[i]);
        assert (given + [m])[i] == given[i];
      }
      if x in Bytes(m) {
        assert x in Bytes((given + [m])[|given|]);
      }
    }
  }

  /** The accounts of every run balance. */
  lemma {:induction false} RunAccounted(s: State, ops: seq<Op>)
    requires s == Start(s.avoided, s.next) && Possible(s, ops)
    ensures Accounted(After(s, ops), Supplied(ops), Withdrawn(s, ops))
    ensures Kept(After(s, ops))
    decreases |ops|
  {
    if ops != [] {
      RunAccounted(s, Front(ops));
      var u, op := After(s, Front(ops)), Last(ops);
      StepKept(u, op);
      StepAccounted(u, op, Supplied(Front(ops)), Withdrawn(s, Front(ops)), Supplied(ops), Withdrawn(s, ops));
    }
  }

  lemma StepAccounted(u: State, op: Op, supplied: iset<int>, withdrawn: iset<int>,
                      supplied': iset<int>, withdrawn': iset<int>)
    requires Accounted(u, supplied, withdrawn) && Enabled(u, op)
    requires supplied' == supplied + (if op.Supply? then Bytes(op.m) else iset{})
    requires withdrawn' ==
             match op {
               case Supply(m) => withdrawn - Bytes(m)
               case Withdraw(m) => withdrawn + (Bytes(m) * u.free - Blocks(u.given))
               case _ => withdrawn
             }
    ensures Accounted(Next(u, op), supplied', withdrawn')
  {
    var t := Next(u, op);
    if op.Allocate? || op.Workspace? || op.EarlyWorkspace? {
      BlocksMore(u.given, op.m);
    }
    forall i | 0 <= i < |t.given|
      ensures t.given[i].End() <= t.next || Bytes(t.given[i]) <= supplied' - withdrawn'
    {
      if i < |u.given| {
        assert t.given[i] == u.given[i];
        assert forall x :: x in Bytes(u.given[i]) ==> InBlock(u.given, x);
      }
    }
  }

  /** The step every other result rests on. The early area is free of earlier blocks exactly where
      it misses the memory supplied, except for what a caller has taken by its address. */
  lemma EarlyIsNew(s: State, ops: seq<Op>, m: Range)
    requires s == Start(s.avoided, s.next) && Possible(s, ops) && Enabled(After(s, ops), EarlyWorkspace(m))
    ensures NotGiven(After(s, ops), m) <==> Bytes(m) * Supplied(ops) <= Withdrawn(s, ops)
    ensures Bytes(m) !! Blocks(After(s, ops).given) + Withdrawn(s, ops) <==> Bytes(m) !! Supplied(ops)
  {
    var u := After(s, ops);
    RunAccounted(s, ops);
    if NotGiven(u, m) {
      forall x | x in Bytes(m) ensures !InBlock(u.given, x) {
      }
    }
    forall i | 0 <= i < |u.given| && Bytes(m) * Supplied(ops) <= Withdrawn(s, ops)
      ensures Bytes(u.given[i]) !! Bytes(m)
    {
    }
    BlocksAccounted(u, m, Supplied(ops), Withdrawn(s, ops));
  }

  lemma BlocksAccounted(u: State, m: Range, supplied: iset<int>, withdrawn: iset<int>)
    requires Accounted(u, supplied, withdrawn) && u.free == iset{} && m.addr == u.next
    ensures Bytes(m) !! Blocks(u.given) + withdrawn <==> Bytes(m) !! supplied
  {
    forall x | x in Bytes(m) && InBlock(u.given, x) ensures x in supplied {
      var i :| 0 <= i < |u.given| && x in Bytes(u.given[i]);
    }
  }

  /** Every early block of a run was handed out where it misses the memory supplied until then,
      except for what a caller had taken by its address. */
  ghost predicate EarlyClear(s: State, ops: seq<Op>) {
    forall k :: 0 <= k < |ops| && ops[k].EarlyWorkspace? ==>
      Bytes(ops[k].m) * Supplied(ops[..k]) <= Withdrawn(s, ops[..k])
  }

  lemma EarlyClearMore(s: State, ops: seq<Op>)
    requires ops != []
    ensures EarlyClear(s, ops) <==>
            && EarlyClear(s, Front(ops))
            && (Last(ops).EarlyWorkspace? ==>
                  Bytes(Last(ops).m) * Supplied(Front(ops)) <= Withdrawn(s, Front(ops)))
  {
    forall k | 0 <= k < |Front(ops)| ensures Front(ops)[k] == ops[k] && Front(ops)[..k] == ops[..k] {
    }
    if EarlyClear(s, ops) {
      assert ops[|ops| - 1] == Last(ops);
      forall k | 0 <= k < |Front(ops)| && Front(ops)[k].EarlyWorkspace?
        ensures Bytes(Front(ops)[k].m) * Supplied(Front(ops)[..k]) <= Withdrawn(s, Front(ops)[..k])
      {
        assert ops[k].EarlyWorkspace?;
      }
    }
  }

  /** The safety theorem: a run from the start, of any length, ends with all its blocks apart from
      each other and out of reach of the searches exactly if its early blocks were clear. */
  lemma {:induction false} RunSafeExactly(s: State, ops: seq<Op>)
    requires s == Start(s.avoided, s.next) && Possible(s, ops)
    ensures Safe(After(s, ops)) <==> EarlyClear(s, ops)
    decreases |ops|
  {
    if ops != [] {
      var front, op := Front(ops), Last(ops);
      var u, t := After(s, front), After(s, ops);
      RunSafeExactly(s, front);
      EarlyClearMore(s, ops);
      RunAccounted(s, ops);
      if Safe(u) {
        StepSafe(u, op, t);
        if op.EarlyWorkspace? {
          EarlyIsNew(s, front, op.m);
        }
      } else {
        RunAccounted(s, front);
        StaysUnsafe(u, op);
      }
    }
  }

  lemma StaysUnsafe(u: State, op: Op)
    requires !Apart(u.given)
    ensures !Apart(Next(u, op).given)
  {
    if op.Allocate? || op.Workspace? || op.EarlyWorkspace? {
      ApartMore(u, op.m);
    }
  }

  /** Two blocks handed out anywhere in a run whose early blocks are clear never overlap. */
  lemma NoDoubleAllocation(s: State, ops: seq<Op>, i: nat, j: nat)
    requires s == Start(s.avoided, s.next) && Possible(s, ops) && EarlyClear(s, ops)
    requires i < j < |After(s, ops).given|
    ensures Bytes(After(s, ops).given[i]) !! Bytes(After(s, ops).given[j])
  {
    RunSafeExactly(s, ops);
  }

  /** Before any memory has been supplied the early area is a safe allocator of its own, and
      its blocks may lie in memory supplied later. */
  lemma {:induction false} EarlyBeforeSupply(s: State, early: seq<Op>, ops: seq<Op>)
    requires s == Start(s.avoided, s.next) && Possible(s, early + ops) && NoEarly(ops)
    requires forall k :: 0 <= k < |early| ==> !early[k].Supply?
    ensures Safe(After(s, early + ops))
  {
    var all := early + ops;
    forall k | 0 <= k < |all| && all[k].EarlyWorkspace?
      ensures Bytes(all[k].m) * Supplied(all[..k]) <= Withdrawn(s, all[..k])
    {
      assert k < |early| && all[..k] == early[..k];
      NothingSupplied(early[..k]);
    }
    RunSafeExactly(s, all);
  }

  lemma {:induction false} NothingSupplied(ops: seq<Op>)
    requires forall k :: 0 <= k < |ops| ==> !ops[k].Supply?
    ensures Supplied(ops) == iset{}
    decreases |ops|
  {
    if ops != [] {
      NothingSupplied(Front(ops));
    }
  }

  /** A run that is not safe: ws_alloc falls back to the early area whenever the free list is
      empty, also when all memory has been handed out, and hands out part of the block again. */
  lemma EarlyWorkspaceOverlap()
    ensures var s, all, early := Start(iset{}, 0x2000), Range(0x1000, 0x2000), Range(0x2000, 8);
            var ops := [Supply(all), Allocate(all), EarlyWorkspace(early)];
            Possible(s, ops) && After(s, ops).given == [all, early] && !Apart([all, early])
  {
    var s, all, early := Start(iset{}, 0x2000), Range(0x1000, 0x2000), Range(0x2000, 8);
    var s1, s2 := s.(free := Bytes(all)), s.(given := [all]);
    RunOne(s, Supply(all), s1);
    RunThen(s, [Supply(all)], s1, Allocate(all), s2);
    assert [Supply(all)] + [Allocate(all)] == [Supply(all), Allocate(all)];
    RunThen(s, [Supply(all), Allocate(all)], s2, EarlyWorkspace(early), Next(s2, EarlyWorkspace(early)));
    assert [Supply(all), Allocate(all)] + [EarlyWorkspace(early)] ==
           [Supply(all), Allocate(all), EarlyWorkspace(early)];
    assert 0x2000 in Bytes(all) && 0x2000 in Bytes(early);
    assert [all, early][0] == all && [all, early][1] == early;
  }
}
