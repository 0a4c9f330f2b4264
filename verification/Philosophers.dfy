/**
The dining philosophers (philo.c) as interleaved lock and unlock steps, for any number of philosophers and any
amount of food. A schedule is the sequence of philosophers that take the steps of a run.
*/
module Philosophers {
  import opened Common

  /** Where a philosopher's thread is: each value names what it does next. */
  datatype Pc =
    | Asking                  // lock food_lock
    | Serving                 // take food, with food_lock held
    | Leaving(portion: nat)   // unlock food_lock and test the portion
    | WantRight               // lock the right chopstick
    | WantLeft                // lock the left chopstick
    | Eating                  // eat, then unlock the left chopstick
    | Clearing                // unlock the right chopstick
    | Finished

  /** A mutex: free, or locked by a philosopher. */
  datatype Mutex = Free | HeldBy(owner: nat)

  datatype Table = Table(pcs: seq<Pc>, chopsticks: seq<Mutex>, foodLock: Mutex, food: nat, meals: nat)

  function Left(i: nat, n: nat): (left: nat)
    ensures i < n ==> left < n
  {
    if i + 1 == n then 0 else i + 1
  }

  function Start(n: nat, food: nat): Table {
    Table(seq(n, _ => Asking), seq(n, _ => Free), Free, food, 0)
  }

  predicate Enabled(t: Table, i: nat) {
    && i < |t.pcs| == |t.chopsticks|
    && match t.pcs[i]
       case Asking => t.foodLock == Free
       case WantRight => t.chopsticks[i] == Free
       case WantLeft => t.chopsticks[Left(i, |t.pcs|)] == Free
       case Finished => false
       case _ => true
  }

  /** The next step of philosopher i; eating starts when the left chopstick is locked. */
  function Step(t: Table, i: nat): (t': Table)
    requires Enabled(t, i)
    ensures |t'.pcs| == |t.pcs| == |t'.chopsticks|
  {
    var left := Left(i, |t.pcs|);
    match t.pcs[i]
    case Asking => t.(pcs := t.pcs[i := Serving], foodLock := HeldBy(i))
    case Serving =>
      var food := if t.food > 0 then t.food - 1 else t.food;
      t.(pcs := t.pcs[i := Leaving(food)], food := food)
    case Leaving(portion) =>
      t.(pcs := t.pcs[i := if portion != 0 then WantRight else Finished], foodLock := Free)
    case WantRight => t.(pcs := t.pcs[i := WantLeft], chopsticks := t.chopsticks[i := HeldBy(i)])
    case WantLeft =>
      t.(pcs := t.pcs[i := Eating], chopsticks := t.chopsticks[left := HeldBy(i)], meals := t.meals + 1)
    case Eating => t.(pcs := t.pcs[i := Clearing], chopsticks := t.chopsticks[left := Free])
    case Clearing => t.(pcs := t.pcs[i := Asking], chopsticks := t.chopsticks[i := Free])
  }

  /** The state a schedule leads to, if every step of it is enabled. */
  function Run(t: Table, schedule: seq<nat>): Option<Table>
    decreases |schedule|
  {
    if schedule == [] then Some(t)
    else if Enabled(t, schedule[0]) then Run(Step(t, schedule[0]), schedule[1..])
    else None
  }

  ghost predicate Reachable(n: nat, food: nat, t: Table) {
    exists schedule :: Run(Start(n, food), schedule) == Some(t)
  }

  // ----- Lock ownership

  predicate HoldsRight(pc: Pc) { pc.WantLeft? || pc.Eating? || pc.Clearing? }

  predicate HoldsLeft(pc: Pc) { pc.Eating? }

  predicate HoldsFood(pc: Pc) { pc.Serving? || pc.Leaving? }

  /** Every chopstick is held by exactly the philosopher whose position says so. */
  ghost predicate ChopsticksOwned(t: Table) {
    var n := |t.pcs|;
    && 2 <= n == |t.chopsticks|
    && (forall i :: 0 <= i < n && HoldsRight(t.pcs[i]) ==> t.chopsticks[i] == HeldBy(i))
    && (forall i :: 0 <= i < n && HoldsLeft(t.pcs[i]) ==> t.chopsticks[Left(i, n)] == HeldBy(i))
    && (forall c :: 0 <= c < n && t.chopsticks[c].HeldBy? ==> HeldAs(t.pcs, t.chopsticks[c].owner, c))
  }

  /** Philosopher h's position says that h holds chopstick c. */
  predicate HeldAs(pcs: seq<Pc>, h: nat, c: nat) {
    h < |pcs| && ((h == c && HoldsRight(pcs[h])) || (Left(h, |pcs|) == c && HoldsLeft(pcs[h])))
  }

  /** The food lock too; its holder's portion is what is left, and whoever has finished has seen the dish empty. */
  ghost predicate FoodOwned(t: Table) {
    var n := |t.pcs|;
    && (forall i :: 0 <= i < n && HoldsFood(t.pcs[i]) ==> t.foodLock == HeldBy(i))
    && (t.foodLock.HeldBy? ==> t.foodLock.owner < n && HoldsFood(t.pcs[t.foodLock.owner]))
    && (forall i :: 0 <= i < n && t.pcs[i].Leaving? ==> t.pcs[i].portion == t.food)
    && (forall i :: 0 <= i < n && t.pcs[i].Finished? ==> t.food == 0)
  }

  ghost predicate Owned(t: Table) {
    ChopsticksOwned(t) && FoodOwned(t)
  }

  lemma StartOwned(n: nat, food: nat)
    requires 2 <= n
    ensures Owned(Start(n, food))
  {
  }

  lemma LeftDiffers(n: nat, i: nat, j: nat)
    requires 2 <= n && i < n && j < n
    ensures Left(i, n) < n && Left(i, n) != i && (Left(i, n) == Left(j, n) ==> i == j)
  {
  }

  lemma StepHolds(t: Table, i: nat, j: nat)
    requires ChopsticksOwned(t) && Enabled(t, i) && j < |t.pcs|
    ensures var t' := Step(t, i);
      && (HoldsRight(t'.pcs[j]) ==> t'.chopsticks[j] == HeldBy(j))
      && (HoldsLeft(t'.pcs[j]) ==> t'.chopsticks[Left(j, |t.pcs|)] == HeldBy(j))
  {
    hide Left;
    LeftDiffers(|t.pcs|, i, j);
    LeftDiffers(|t.pcs|, j, i);
  }

  lemma StepHeld(t: Table, i: nat, c: nat)
    requires ChopsticksOwned(t) && Enabled(t, i) && c < |t.pcs| && Step(t, i).chopsticks[c].HeldBy?
    ensures HeldAs(Step(t, i).pcs, Step(t, i).chopsticks[c].owner, c)
  {
    hide Left;
    LeftDiffers(|t.pcs|, i, i);
    if t.chopsticks[c].HeldBy? {
      assert HeldAs(t.pcs, t.chopsticks[c].owner, c);
    }
  }

  lemma StepChopsticks(t: Table, i: nat)
    requires ChopsticksOwned(t) && Enabled(t, i)
    ensures ChopsticksOwned(Step(t, i))
  {
    hide Step, Left;
    forall j | 0 <= j < |t.pcs| {
      StepHolds(t, i, j);
    }
    forall c | 0 <= c < |t.pcs| && Step(t, i).chopsticks[c].HeldBy? {
      StepHeld(t, i, c);
    }
  }

  lemma StepOwned(t: Table, i: nat)
    requires Owned(t) && Enabled(t, i)
    ensures Owned(Step(t, i))
  {
    hide ChopsticksOwned;
    StepChopsticks(t, i);
  }

  // ----- Food and meals

  /** A philosopher who has been served a portion that is not eaten yet. */
  predicate Owed(pc: Pc) {
    pc.WantRight? || pc.WantLeft? || (pc.Leaving? && pc.portion != 0)
  }

  function CountOwed(pcs: seq<Pc>): nat {
    if pcs == [] then 0 else (if Owed(pcs[0]) then 1 else 0) + CountOwed(pcs[1..])
  }

  lemma {:induction false} CountOwedUpdate(pcs: seq<Pc>, i: nat, pc: Pc)
    requires i < |pcs|
    ensures CountOwed(pcs[i := pc]) == CountOwed(pcs) - (if Owed(pcs[i]) then 1 else 0) + (if Owed(pc) then 1 else 0)
  {
    if i > 0 {
      CountOwedUpdate(pcs[1..], i - 1, pc);
      assert pcs[i := pc][1..] == pcs[1..][i - 1 := pc];
    } else {
      assert pcs[0 := pc][1..] == pcs[1..];
    }
  }

  lemma {:induction false} CountOwedNone(pcs: seq<Pc>)
    requires forall i :: 0 <= i < |pcs| ==> !Owed(pcs[i])
    ensures CountOwed(pcs) == 0
  {
    if pcs != [] {
      CountOwedNone(pcs[1..]);
    }
  }

  lemma {:induction false} CountOwedAll(pcs: seq<Pc>)
    requires forall i :: 0 <= i < |pcs| ==> Owed(pcs[i])
    ensures CountOwed(pcs) == |pcs|
  {
    if pcs != [] {
      CountOwedAll(pcs[1..]);
    }
  }

  /** Portions served are eaten or owed; the last portion of the dish is never served as a meal. */
  ghost predicate Conserved(t: Table, food0: nat) {
    t.meals + CountOwed(t.pcs) + Max(t.food, 1) == Max(food0, 1)
  }

  lemma StepConserved(t: Table, i: nat, food0: nat)
    requires Owned(t) && Enabled(t, i) && Conserved(t, food0)
    ensures Conserved(Step(t, i), food0)
  {
    CountOwedUpdate(t.pcs, i, Step(t, i).pcs[i]);
  }

  // ----- Runs

  lemma {:induction false} RunInvariant(t: Table, schedule: seq<nat>, food0: nat)
    requires Owned(t) && Conserved(t, food0) && Run(t, schedule).Some?
    ensures Owned(Run(t, schedule).value) && Conserved(Run(t, schedule).value, food0)
    ensures |Run(t, schedule).value.pcs| == |t.pcs|
    decreases |schedule|
  {
    if schedule != [] {
      StepOwned(t, schedule[0]);
      StepConserved(t, schedule[0], food0);
      RunInvariant(Step(t, schedule[0]), schedule[1..], food0);
    }
  }

  lemma ReachableInvariant(n: nat, food: nat, t: Table)
    requires 2 <= n && Reachable(n, food, t)
    ensures Owned(t) && Conserved(t, food) && |t.pcs| == n
  {
    var schedule :| Run(Start(n, food), schedule) == Some(t);
    StartOwned(n, food);
    CountOwedNone(Start(n, food).pcs);
    RunInvariant(Start(n, food), schedule, food);
  }

  /** In no reachable state do two neighbours eat together. */
  lemma NeighboursNeverEatTogether(n: nat, food: nat, t: Table, i: nat)
    requires 2 <= n && Reachable(n, food, t) && i < n
    ensures |t.pcs| == n && !(t.pcs[i].Eating? && t.pcs[Left(i, n)].Eating?)
  {
    ReachableInvariant(n, food, t);
    assert t.pcs[i].Eating? ==> t.chopsticks[Left(i, n)] == HeldBy(i);
    assert t.pcs[Left(i, n)].Eating? ==> t.chopsticks[Left(i, n)] == HeldBy(Left(i, n));
  }

  // ----- One philosopher

  function Times(k: nat, i: nat): seq<nat> {
    seq(k, _ => i)
  }

  lemma NoSteps(t: Table, i: nat)
    ensures Run(t, Times(0, i)) == Some(t)
  {
    assert Times(0, i) == [];
  }

  lemma {:induction false} OneMoreStep(t: Table, k: nat, i: nat)
    requires Run(t, Times(k, i)).Some? && Enabled(Run(t, Times(k, i)).value, i)
    ensures Run(t, Times(k + 1, i)) == Some(Step(Run(t, Times(k, i)).value, i))
  {
    var last := [i];
    assert Times(k + 1, i) == Times(k, i) + last && last[1..] == [];
    RunAppend(t, Times(k, i), last);
  }

  /** One who takes the last portion, or finds none, leaves without eating; otherwise he goes for the chopsticks. */
  lemma Served(t: Table, i: nat)
    requires i < |t.pcs| == |t.chopsticks| && t.pcs[i] == Asking && t.foodLock == Free
    ensures Run(t, Times(3, i)) ==
            Some(if 1 < t.food then t.(pcs := t.pcs[i := WantRight], food := t.food - 1)
                 else t.(pcs := t.pcs[i := Finished], food := 0))
  {
    hide Run, Times, Left, CountOwed, SumRanks;
    NoSteps(t, i);
    var food := if t.food > 0 then t.food - 1 else t.food;
    var t1 := t.(pcs := t.pcs[i := Serving], foodLock := HeldBy(i));
    var t2 := t.(pcs := t.pcs[i := Leaving(food)], foodLock := HeldBy(i), food := food);
    OneMoreStep(t, 0, i);
    assert t1.pcs[i := Leaving(food)] == t2.pcs;
    OneMoreStep(t, 1, i);
    assert t2.pcs[i := WantRight] == t.pcs[i := WantRight] && t2.pcs[i := Finished] == t.pcs[i := Finished];
    OneMoreStep(t, 2, i);
  }

  /** He takes the right chopstick first, and then the left one; having eaten, he puts the left one down first. */
  lemma Hands(t: Table, i: nat)
    requires i < |t.pcs| == |t.chopsticks| && 2 <= |t.pcs|
    ensures var left := Left(i, |t.pcs|);
      left < |t.chopsticks| && (Enabled(t, i) ==>
        && (t.pcs[i] == WantRight ==>
              Step(t, i).chopsticks == t.chopsticks[i := HeldBy(i)] && Step(t, i).pcs[i] == WantLeft)
        && (t.pcs[i] == WantLeft ==>
              Step(t, i).chopsticks == t.chopsticks[left := HeldBy(i)] && Step(t, i).pcs[i] == Eating)
        && (t.pcs[i] == Eating ==> Step(t, i).chopsticks == t.chopsticks[left := Free] && Step(t, i).pcs[i] == Clearing)
        && (t.pcs[i] == Clearing ==> Step(t, i).chopsticks == t.chopsticks[i := Free] && Step(t, i).pcs[i] == Asking))
  {
  }

  lemma Grabs(t: Table, i: nat, left: nat)
    requires i < |t.pcs| == |t.chopsticks| && t.pcs[i] == WantRight && left == Left(i, |t.pcs|) < |t.pcs| && left != i
    requires t.chopsticks[i] == Free && t.chopsticks[left] == Free
    ensures Run(t, Times(2, i)) ==
            Some(t.(pcs := t.pcs[i := Eating], chopsticks := t.chopsticks[i := HeldBy(i)][left := HeldBy(i)],
                    meals := t.meals + 1))
  {
    hide Run, Times, Left, CountOwed, SumRanks;
    NoSteps(t, i);
    var t1 := t.(pcs := t.pcs[i := WantLeft], chopsticks := t.chopsticks[i := HeldBy(i)]);
    OneMoreStep(t, 0, i);
    assert t1.pcs[i := Eating] == t.pcs[i := Eating] && |t1.pcs| == |t.pcs| && t1.chopsticks[left] == Free;
    OneMoreStep(t, 1, i);
  }

  lemma PutsDown(t: Table, i: nat, left: nat)
    requires i < |t.pcs| == |t.chopsticks| && t.pcs[i] == Eating && left == Left(i, |t.pcs|) < |t.pcs|
    ensures Run(t, Times(2, i)) ==
            Some(t.(pcs := t.pcs[i := Asking], chopsticks := t.chopsticks[left := Free][i := Free]))
  {
    hide Run, Times, Left, CountOwed, SumRanks;
    NoSteps(t, i);
    var t1 := t.(pcs := t.pcs[i := Clearing], chopsticks := t.chopsticks[left := Free]);
    OneMoreStep(t, 0, i);
    assert t1.pcs[i := Asking] == t.pcs[i := Asking];
    OneMoreStep(t, 1, i);
  }

  /** With both chopsticks free he eats one portion in four steps, and has then changed nothing else. */
  lemma Meal(t: Table, i: nat)
    requires i < |t.pcs| == |t.chopsticks| && 2 <= |t.pcs| && t.pcs[i] == WantRight
    requires t.chopsticks[i] == Free && t.chopsticks[Left(i, |t.pcs|)] == Free
    ensures Run(t, Times(4, i)) == Some(t.(pcs := t.pcs[i := Asking], meals := t.meals + 1))
  {
    hide Run, Left;
    LeftDiffers(|t.pcs|, i, i);
    var left := Left(i, |t.pcs|);
    var both := t.chopsticks[i := HeldBy(i)][left := HeldBy(i)];
    var t1 := t.(pcs := t.pcs[i := Eating], chopsticks := both, meals := t.meals + 1);
    Grabs(t, i, left);
    PutsDown(t1, i, left);
    RunAppend(t, Times(2, i), Times(2, i));
    assert Times(2, i) + Times(2, i) == Times(4, i);
    assert both[left := Free][i := Free] == t.chopsticks && t1.pcs[i := Asking] == t.pcs[i := Asking];
  }

  /** A philosopher left to himself eats one portion a round, and changes nothing else. */
  lemma OneRound(t: Table, i: nat)
    requires i < |t.pcs| == |t.chopsticks| && 2 <= |t.pcs| && t.pcs[i] == Asking && t.foodLock == Free && 1 < t.food
    requires t.chopsticks[i] == Free && t.chopsticks[Left(i, |t.pcs|)] == Free
    ensures Run(t, Times(7, i)) == Some(t.(food := t.food - 1, meals := t.meals + 1))
  {
    hide Run, Left;
    Served(t, i);
    var t1 := t.(pcs := t.pcs[i := WantRight], food := t.food - 1);
    Meal(t1, i);
    RunAppend(t, Times(3, i), Times(4, i));
    assert Times(3, i) + Times(4, i) == Times(7, i);
    assert t1.pcs[i := Asking] == t.pcs;
  }

  // ----- Deadlock

  predicate Stuck(t: Table) {
    forall i: nat :: i < |t.pcs| ==> !Enabled(t, i)
  }

  predicate AllFinished(t: Table) {
    forall i :: 0 <= i < |t.pcs| ==> t.pcs[i].Finished?
  }

  /** Every philosopher holds the right chopstick and waits for the left one. */
  predicate Cycle(t: Table) {
    && |t.pcs| == |t.chopsticks|
    && forall i :: 0 <= i < |t.pcs| ==> t.pcs[i].WantLeft? && t.chopsticks[i] == HeldBy(i)
  }

  /** In a stuck state, a philosopher who waits for the left chopstick waits for one who does the same. */
  lemma WaitingSpreads(t: Table, i: nat)
    requires Owned(t) && Stuck(t) && i < |t.pcs| && t.pcs[i].WantLeft?
    ensures t.pcs[Left(i, |t.pcs|)].WantLeft?
  {
    var c := Left(i, |t.pcs|);
    assert !Enabled(t, i);
    var h := t.chopsticks[c].owner;
    assert !Enabled(t, h);
  }

  lemma {:induction false} WaitingSpreadsAround(t: Table, i: nat, k: nat)
    requires Owned(t) && Stuck(t) && i < |t.pcs| && t.pcs[i].WantLeft? && k < |t.pcs|
    ensures t.pcs[if i + k < |t.pcs| then i + k else i + k - |t.pcs|].WantLeft?
  {
    if k > 0 {
      WaitingSpreadsAround(t, i, k - 1);
      WaitingSpreads(t, if i + k - 1 < |t.pcs| then i + k - 1 else i + k - 1 - |t.pcs|);
    }
  }

  /** In a stuck state every philosopher has finished or waits for the left chopstick. */
  lemma StuckPositions(t: Table, i: nat)
    requires Owned(t) && Stuck(t) && i < |t.pcs|
    ensures t.pcs[i].Finished? || t.pcs[i].WantLeft?
  {
    assert !Enabled(t, i);
    assert forall h: nat :: h < |t.pcs| && HoldsFood(t.pcs[h]) ==> Enabled(t, h);
    assert forall h: nat :: h < |t.pcs| && t.pcs[h].Eating? ==> Enabled(t, h);
  }

  /** A reachable state has no enabled step exactly when all have finished, or all wait in the one cycle. */
  lemma StuckIff(n: nat, food: nat, t: Table)
    requires 2 <= n && Reachable(n, food, t)
    ensures Stuck(t) <==> AllFinished(t) || Cycle(t)
  {
    ReachableInvariant(n, food, t);
    if Stuck(t) {
      forall i | 0 <= i < n
        ensures t.pcs[i].Finished? || t.pcs[i].WantLeft?
      {
        StuckPositions(t, i);
      }
      if !AllFinished(t) {
        var i :| 0 <= i < n && !t.pcs[i].Finished?;
        forall j | 0 <= j < n
          ensures t.pcs[j].WantLeft?
        {
          WaitingSpreadsAround(t, i, if i <= j then j - i else j - i + n);
        }
      }
    }
  }

  /** When all have finished, the dish is empty and every portion but the last has been eaten. */
  lemma AllFinishedMeals(n: nat, food: nat, t: Table)
    requires 2 <= n && Reachable(n, food, t) && AllFinished(t)
    ensures t.food == 0 && t.meals == Max(food, 1) - 1
  {
    ReachableInvariant(n, food, t);
    CountOwedNone(t.pcs);
    assert t.pcs[0].Finished?;
  }

  /** The schedule in which each of the first k philosophers in turn gets as far as the right chopstick. */
  function Greedy(k: nat): seq<nat> {
    if k == 0 then [] else Greedy(k - 1) + [k - 1, k - 1, k - 1, k - 1]
  }

  /** The state that schedule leads to. */
  function Grabbed(n: nat, food: nat, k: nat): Table
    requires k <= n && k <= food
  {
    Table(seq(n, i => if i < k then WantLeft else Asking),
          seq(n, i => if 0 <= i < k then HeldBy(i) else Free), Free, food - k, 0)
  }

  lemma {:induction false} RunAppend(t: Table, s1: seq<nat>, s2: seq<nat>)
    requires Run(t, s1).Some?
    ensures Run(t, s1 + s2) == Run(Run(t, s1).value, s2)
    decreases |s1|
  {
    if s1 == [] {
      assert s1 + s2 == s2;
    } else {
      assert (s1 + s2)[1..] == s1[1..] + s2;
      RunAppend(Step(t, s1[0]), s1[1..], s2);
    }
  }

  lemma {:induction false} GreedyRuns(n: nat, food: nat, k: nat)
    requires k <= n && k < food
    ensures Run(Start(n, food), Greedy(k)) == Some(Grabbed(n, food, k))
  {
    if k == 0 {
      assert Start(n, food) == Grabbed(n, food, 0);
    } else {
      GreedyRuns(n, food, k - 1);
      var i, t := k - 1, Grabbed(n, food, k - 1);
      RunAppend(Start(n, food), Greedy(k - 1), [i, i, i, i]);
      var t1 := Step(t, i);
      var t2 := Step(t1, i);
      var t3 := Step(t2, i);
      var t4 := Step(t3, i);
      assert [i, i, i, i][1..] == [i, i, i] && [i, i, i][1..] == [i, i] && [i, i][1..] == [i];
      assert Run(t, [i, i, i, i]) == Run(t1, [i, i, i]) == Run(t2, [i, i]) == Run(t3, [i]) == Run(t4, []);
      assert t4.pcs == Grabbed(n, food, k).pcs && t4.chopsticks == Grabbed(n, food, k).chopsticks;
    }
  }

  /** The deadlock can be reached exactly when there is more food than philosophers. */
  lemma DeadlockReachableIff(n: nat, food: nat)
    requires 2 <= n
    ensures (exists t :: Reachable(n, food, t) && Cycle(t)) <==> food > n
  {
    if food > n {
      GreedyRuns(n, food, n);
      assert Reachable(n, food, Grabbed(n, food, n)) && Cycle(Grabbed(n, food, n));
    }
    if t :| Reachable(n, food, t) && Cycle(t) {
      ReachableInvariant(n, food, t);
      CountOwedAll(t.pcs);
    }
  }

  // ----- Termination

  /** How many steps a position is from the end, were no more food to be served. */
  function Rank(pc: Pc): nat {
    match pc
    case Finished => 0
    case Leaving(portion) => if portion == 0 then 1 else 8
    case Serving => 2
    case Asking => 3
    case Clearing => 4
    case Eating => 5
    case WantLeft => 6
    case WantRight => 7
  }

  function SumRanks(pcs: seq<Pc>): nat {
    if pcs == [] then 0 else Rank(pcs[0]) + SumRanks(pcs[1..])
  }

  lemma {:induction false} SumRanksUpdate(pcs: seq<Pc>, i: nat, pc: Pc)
    requires i < |pcs|
    ensures SumRanks(pcs[i := pc]) == SumRanks(pcs) - Rank(pcs[i]) + Rank(pc)
  {
    if i > 0 {
      SumRanksUpdate(pcs[1..], i - 1, pc);
      assert pcs[i := pc][1..] == pcs[1..][i - 1 := pc];
    } else {
      assert pcs[0 := pc][1..] == pcs[1..];
    }
  }

  lemma {:induction false} SumRanksAsking(n: nat)
    ensures SumRanks(seq(n, _ => Asking)) == 3 * n
  {
    if n > 0 {
      assert seq(n, _ => Asking)[1..] == seq(n - 1, _ => Asking);
      SumRanksAsking(n - 1);
    }
  }

  function Remaining(t: Table): nat {
    8 * t.food + SumRanks(t.pcs)
  }

  lemma {:induction false} RunShortens(t: Table, schedule: seq<nat>)
    requires Run(t, schedule).Some?
    ensures |schedule| + Remaining(Run(t, schedule).value) <= Remaining(t)
    decreases |schedule|
  {
    if schedule != [] {
      SumRanksUpdate(t.pcs, schedule[0], Step(t, schedule[0]).pcs[schedule[0]]);
      RunShortens(Step(t, schedule[0]), schedule[1..]);
    }
  }

  /** Every run is finite: no schedule is longer than 8 steps a portion and 3 a philosopher. */
  lemma RunsAreBounded(n: nat, food: nat, schedule: seq<nat>)
    requires Run(Start(n, food), schedule).Some?
    ensures |schedule| <= 8 * food + 3 * n
  {
    RunShortens(Start(n, food), schedule);
    SumRanksAsking(n);
  }

  /**
   Every schedule that cannot be extended ends with all philosophers finished and every portion but the last
   eaten, or in the deadlock; with no more food than philosophers it always ends well.
   */
  lemma MaximalRuns(n: nat, food: nat, schedule: seq<nat>)
    requires 2 <= n && Run(Start(n, food), schedule).Some? && Stuck(Run(Start(n, food), schedule).value)
    ensures var t := Run(Start(n, food), schedule).value;
      || (AllFinished(t) && t.food == 0 && t.meals == Max(food, 1) - 1)
      || (Cycle(t) && food > n && t.meals + n < food)
  {
    var t := Run(Start(n, food), schedule).value;
    assert Reachable(n, food, t);
    StuckIff(n, food, t);
    if AllFinished(t) {
      AllFinishedMeals(n, food, t);
    } else {
      DeadlockReachableIff(n, food);
      ReachableInvariant(n, food, t);
      CountOwedAll(t.pcs);
    }
  }
}
