/** The single-producer single-consumer ring of comm_usb.c (2048 bytes) and comm_can.c (100
    frames). The producer's store, increment and wrap cannot be interleaved with the consumer:
    it has the higher priority, or it blocks nowhere between them and there is no time slicing.
    The consumer can be preempted between any two of its steps: the loop test, the copy of the
    item, the increment of its index, and the wrap. */
module Ring {

  /** Where the consumer is: at its loop test, past it, with a copy of the item, or with its index
      incremented and not yet wrapped. */
  datatype Phase<T> = AtTest | Entered | Copied(item: T) | Advanced

  datatype Ring<T> = Ring(cells: seq<T>, read: nat, write: nat, phase: Phase<T>)

  /** produced and consumed record the whole history; an item is consumed when the read index has
      moved past it. */
  datatype System<T> = System(ring: Ring<T>, produced: seq<T>, consumed: seq<T>)

  datatype Action<T> = Store(item: T) | Test | Copy | Advance | Wrap

  predicate InRange<T>(r: Ring<T>) {
    && r.write < |r.cells| && r.read <= |r.cells|
    && (!r.phase.Advanced? ==> r.read < |r.cells|)
  }

  /** The consumer's loop test: it goes on while the indices differ. */
  predicate SeesItem<T>(r: Ring<T>) {
    r.read != r.write
  }

  predicate Enabled<T>(s: System<T>, a: Action<T>) {
    match a
    case Store(_) => true
    case Test => s.ring.phase.AtTest?
    case Copy => s.ring.phase.Entered?
    case Advance => s.ring.phase.Copied?
    case Wrap => s.ring.phase.Advanced?
  }

  function Wrapped(i: nat, n: nat): nat {
    if i == n then 0 else i
  }

  function Step<T>(s: System<T>, a: Action<T>): System<T>
    requires InRange(s.ring) && Enabled(s, a)
  {
    var r := s.ring;
    match a
    case Store(x) =>
      s.(ring := r.(cells := r.cells[r.write := x], write := Wrapped(r.write + 1, |r.cells|)),
         produced := s.produced + [x])
    case Test => s.(ring := r.(phase := if SeesItem(r) then Entered else AtTest))
    case Copy => s.(ring := r.(phase := Copied(r.cells[r.read])))
    case Advance =>
      s.(ring := r.(read := r.read + 1, phase := Advanced), consumed := s.consumed + [r.phase.item])
    case Wrap => s.(ring := r.(read := Wrapped(r.read, |r.cells|), phase := AtTest))
  }

  function Outstanding<T>(s: System<T>): int {
    |s.produced| - |s.consumed|
  }

  /** The cell j places after the one the consumer reads next. */
  function Place<T>(r: Ring<T>, j: nat): nat {
    var i := Wrapped(r.read, |r.cells|) + j;
    if i >= |r.cells| then i - |r.cells| else i
  }

  /** Consumed items are a prefix of the produced ones, the rest lies in order from the read
      index on, and the write index is just behind it. */
  ghost predicate Lined<T>(s: System<T>) {
    var r := s.ring;
    && InRange(r)
    && s.consumed <= s.produced
    && Outstanding(s) <= |r.cells|
    && (forall j :: 0 <= j < Outstanding(s) ==> r.cells[Place(r, j)] == s.produced[|s.consumed| + j])
    && r.write == Place(r, Outstanding(s))
  }

  /** A consumer past its test has an item to take, and its copy is the next one. */
  ghost predicate Inv<T>(s: System<T>) {
    && Lined(s)
    && (s.ring.phase.Entered? || s.ring.phase.Copied? ==> Outstanding(s) > 0)
    && (s.ring.phase.Copied? ==> s.ring.phase.item == s.produced[|s.consumed|])
  }

  /** With fewer than N items outstanding the loop test is exact; with N it reads as empty. */
  lemma SeesItemIff<T>(s: System<T>)
    requires Lined(s) && !s.ring.phase.Advanced?
    ensures SeesItem(s.ring) <==> 0 < Outstanding(s) < |s.ring.cells|
  {
  }

  /** One step of either side. A store needs a free cell, and for the test to stay exact one more. */
  lemma StepKeepsInv<T>(s: System<T>, a: Action<T>)
    requires Inv(s) && Enabled(s, a)
    requires a.Store? ==> Outstanding(s) < |s.ring.cells|
    ensures Inv(Step(s, a))
  {
    match a
    case Store(x) => StoreKeepsInv(s, x);
    case Test =>
      SeesItemIff(s);
      SamePlaces(s, a);
    case Copy =>
      SamePlaces(s, a);
      assert Place(s.ring, 0) == s.ring.read;
    case Advance => AdvanceKeepsInv(s);
    case Wrap => SamePlaces(s, a);
  }

  /** Test, copy and wrap move nothing. */
  lemma SamePlaces<T>(s: System<T>, a: Action<T>)
    requires Lined(s) && Enabled(s, a) && (a.Test? || a.Copy? || a.Wrap?)
    ensures Lined(Step(s, a))
  {
    assert forall j :: 0 <= j <= |s.ring.cells| ==> Place(Step(s, a).ring, j) == Place(s.ring, j);
  }

  lemma StoreKeepsInv<T>(s: System<T>, x: T)
    requires Inv(s) && Outstanding(s) < |s.ring.cells|
    ensures Inv(Step(s, Store(x)))
  {
    var s' := Step(s, Store(x));
    var r, r' := s.ring, s'.ring;
    forall j | 0 <= j < Outstanding(s') ensures r'.cells[Place(r', j)] == s'.produced[|s'.consumed| + j] {
      assert Place(r', j) == Place(r, j);
      if j < Outstanding(s) {
        assert Place(r, j) != r.write;
        assert r.cells[Place(r, j)] == s.produced[|s.consumed| + j];
      }
    }
  }

  lemma AdvanceKeepsInv<T>(s: System<T>)
    requires Inv(s) && Enabled(s, Advance)
    ensures Inv(Step(s, Advance))
  {
    var s' := Step(s, Advance);
    var r, r' := s.ring, s'.ring;
    forall j | 0 <= j < Outstanding(s') ensures r'.cells[Place(r', j)] == s'.produced[|s'.consumed| + j] {
      assert Place(r', j) == Place(r, j + 1);
      assert r.cells[Place(r, j + 1)] == s.produced[|s.consumed| + (j + 1)];
    }
  }

  /** A run of the two threads, interleaved in any way. */
  ghost predicate IsRun<T>(s: System<T>, actions: seq<Action<T>>)
    decreases |actions|
  {
    InRange(s.ring) &&
    (actions == [] ||
     (Enabled(s, actions[0])
      && (actions[0].Store? ==> Outstanding(s) < |s.ring.cells| - 1)
      && IsRun(Step(s, actions[0]), actions[1..])))
  }

  ghost function Final<T>(s: System<T>, actions: seq<Action<T>>): System<T>
    requires IsRun(s, actions)
    decreases |actions|
  {
    if actions == [] then s else Final(Step(s, actions[0]), actions[1..])
  }

  /** With at most N - 1 items outstanding, whatever the interleaving and wherever the consumer is
      preempted: what was consumed is a prefix of what was produced, a copy that is held is the
      item that follows, and a consumer at its loop test stops exactly when it has consumed
      everything. */
  lemma {:induction false} InOrderAlways<T>(s: System<T>, actions: seq<Action<T>>)
    requires Inv(s) && Outstanding(s) < |s.ring.cells| && IsRun(s, actions)
    ensures var s' := Final(s, actions);
            && Inv(s') && Outstanding(s') < |s'.ring.cells| && |s'.ring.cells| == |s.ring.cells|
            && s'.consumed <= s'.produced
            && (s'.ring.phase.Copied? ==> s'.consumed + [s'.ring.phase.item] <= s'.produced)
            && (s'.ring.phase.AtTest? ==> (SeesItem(s'.ring) <==> s'.consumed != s'.produced))
    decreases |actions|
  {
    if actions == [] {
      if s.ring.phase.AtTest? {
        SeesItemIff(s);
      }
    } else {
      StepKeepsInv(s, actions[0]);
      InOrderAlways(Step(s, actions[0]), actions[1..]);
    }
  }

  lemma InitialInv<T>(cells: seq<T>)
    requires |cells| >= 1
    ensures Inv(System(Ring(cells, 0, 0, AtTest), [], []))
  {
  }

  /** The bound is tight: one store more than N - 1 and the consumer sees an empty ring, though N
      items are waiting. */
  lemma FullReadsEmpty<T>(s: System<T>, x: T)
    requires Inv(s) && s.ring.phase.AtTest? && Outstanding(s) == |s.ring.cells| - 1
    ensures var s' := Step(s, Store(x)); Outstanding(s') == |s.ring.cells| && !SeesItem(s'.ring)
  {
    StepKeepsInv(s, Store(x));
    SeesItemIff(Step(s, Store(x)));
  }

  /** The ring as the threads share it. */
  class SharedRing<T(0)> {
    const cells: array<T>
    var read: nat
    var write: nat
    ghost var phase: Phase<T>
    ghost var produced: seq<T>
    ghost var consumed: seq<T>

    ghost function Value(): System<T>
      reads this, cells
    {
      System(Ring(cells[..], read, write, phase), produced, consumed)
    }

    ghost predicate Valid()
      reads this, cells
    {
      InRange(Value().ring)
    }

    constructor (n: nat)
      requires n >= 1
      ensures Valid() && Inv(Value()) && fresh(cells) && cells.Length == n
      ensures produced == [] && consumed == [] && phase == AtTest
    {
      cells := new T[n];
      read, write, phase, produced, consumed := 0, 0, AtTest, [], [];
    }

    /** The body of the reading thread's loop. */
    method Put(item: T)
      requires Valid()
      modifies this, cells
      ensures Valid() && Value() == Step(old(Value()), Store(item))
    {
      ghost var was := cells[..];
      cells[write] := item;
      assert cells[..] == was[write := item];
      write := write + 1;
      if write == cells.Length {
        write := 0;
      }
      produced := produced + [item];
    }

    /** The loop test of the processing thread. */
    method HasItem() returns (found: bool)
      requires Valid() && phase.AtTest?
      modifies this`phase
      ensures Valid() && Value() == Step(old(Value()), Test) && found == SeesItem(old(Value()).ring)
    {
      found := read != write;
      if found {
        phase := Entered;
      }
    }

    /** The item at the read index. */
    method Peek() returns (item: T)
      requires Valid() && phase.Entered?
      modifies this`phase
      ensures Valid() && Value() == Step(old(Value()), Copy) && phase == Copied(item)
    {
      item := cells[read];
      phase := Copied(item);
    }

    /** The increment of the read index. */
    method MoveOn()
      requires Valid() && phase.Copied?
      modifies this
      ensures Valid() && Value() == Step(old(Value()), Advance)
    {
      consumed := consumed + [phase.item];
      read := read + 1;
      phase := Advanced;
    }

    /** The wrap at the end of the loop's body. */
    method WrapRead()
      requires Valid() && phase.Advanced?
      modifies this
      ensures Valid() && Value() == Step(old(Value()), Wrap)
    {
      if read == cells.Length {
        read := 0;
      }
      phase := AtTest;
    }
  }
}
