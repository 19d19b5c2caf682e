/**
 The statistics services: any number of threads put records into a shared list while a background thread saves
 it. The list is only changed under its lock, but its size is also looked at without the lock, and the file is
 written after the lock is released. A run interleaves the threads' steps in any way; a record is its printed line.
 */
module StatBuffer {
  import opened Arithmetic
  import opened Basics

  type Record = string

  type Batch = seq<Record>

  datatype Limits = Limits(maxSize: nat, sizePerStep: nat, minTimeout: nat, maxTimeout: nat, defaultTimeout: nat) {
    predicate Valid() { 0 < minTimeout <= defaultTimeout <= maxTimeout }
  }

  const DEVICE_STAT: Limits := Limits(1024, 256, 1, 5 * 60, 60)
  const GW_STAT: Limits := Limits(1024, 128, 1, 5 * 60, 60)

  const ERR_CODE_SOCKET_WRITE: int := -518
  const ERR_CODE_PARAM_INVALID: int := -545

  // ---- what the threads share ----

  // The list and the delay of the saver; the rest is history: the records pushed and the batches taken from the
  // list, both in the order of the lock, the batches appended to the file and those whose append failed, and for
  // each batch in the file when it was taken: batch number k is the one taken after k others.
  datatype Shared = Shared(list: Batch, timeout: nat,
                           pushed: Batch, drained: seq<Batch>, file: seq<Batch>, lost: seq<Batch>, order: seq<nat>)

  function Pushed(s: Shared, x: Record): Shared {
    s.(list := s.list + [x], pushed := s.pushed + [x])
  }

  function Drained(s: Shared): Shared {
    s.(list := [], drained := s.drained + [s.list])
  }

  function Appended(s: Shared, batch: Batch, number: nat, ok: bool): Shared {
    if ok then s.(file := s.file + [batch], order := s.order + [number]) else s.(lost := s.lost + [batch])
  }

  // The next delay, from the size of the list.
  function Tuned(l: Limits, count: nat, timeout: nat): (t: nat)
    requires l.Valid()
    ensures 0 < t <= l.maxTimeout
  {
    var t := if count < l.sizePerStep then timeout * 2 else timeout / 2;
    if t == 0 then l.minTimeout else if t > l.maxTimeout then l.maxTimeout else t
  }

  // A save without interference.
  function Saved(s: Shared, ok: bool): Shared {
    if s.list == [] then s else Appended(Drained(s), s.list, |s.drained|, ok)
  }

  class StatService {
    const limits: Limits
    var list: Batch
    var timeoutSeconds: nat
    var file: seq<Batch>
    ghost var pushed: Batch
    ghost var drained: seq<Batch>
    ghost var lost: seq<Batch>
    ghost var order: seq<nat>

    ghost function View(): Shared
      reads this
    {
      Shared(list, timeoutSeconds, pushed, drained, file, lost, order)
    }

    constructor (l: Limits)
      ensures limits == l && View() == Shared([], l.defaultTimeout, [], [], [], [], [])
    {
      limits := l;
      list, timeoutSeconds, file := [], l.defaultTimeout, [];
      pushed, drained, lost, order := [], [], [], [];
    }

    // The two sections of code that hold the lock.
    method LockedPush(x: Record)
      modifies this
      ensures View() == Pushed(old(View()), x)
      ensures list == old(list) + [x] && pushed == old(pushed) + [x]
    {
      list := list + [x];
      pushed := pushed + [x];
    }

    method LockedDrain() returns (copyList: Batch)
      modifies this
      ensures copyList == old(list) && View() == Drained(old(View()))
      ensures list == [] && drained == old(drained) + [copyList]
    {
      copyList := list;
      list := [];
      drained := drained + [copyList];
    }

    // ok says whether the append to the file succeeds.
    method AppendToFile(batch: Batch, ghost number: nat, ok: bool) returns (r: int)
      modifies this
      ensures View() == Appended(old(View()), batch, number, ok)
      ensures r == if ok then LORA_OK else ERR_CODE_SOCKET_WRITE
    {
      if ok {
        file := file + [batch];
        order := order + [number];
        return LORA_OK;
      }
      lost := lost + [batch];
      return ERR_CODE_SOCKET_WRITE;
    }

    method Save(ok: bool) returns (r: int)
      modifies this
      ensures View() == Saved(old(View()), ok)
      ensures r == if old(list) == [] then ERR_CODE_PARAM_INVALID else if ok then LORA_OK else ERR_CODE_SOCKET_WRITE
      ensures list == [] && pushed == old(pushed)
      ensures old(list) != [] && ok ==> file == old(file) + [old(list)] && lost == old(lost)
      ensures old(list) != [] && !ok ==> file == old(file) && lost == old(lost) + [old(list)]
      ensures old(list) == [] ==> View() == old(View())
    {
      if |list| == 0 {
        return ERR_CODE_PARAM_INVALID;
      }
      ghost var number := |drained|;
      var copyList := LockedDrain();
      r := AppendToFile(copyList, number, ok);
    }

    method Put(x: Record, ok: bool)
      modifies this
      ensures View() == Pushed(if |old(list)| > limits.maxSize then Saved(old(View()), ok) else old(View()), x)
      ensures pushed == old(pushed) + [x] && timeoutSeconds == old(timeoutSeconds)
      ensures |old(list)| <= limits.maxSize ==>
        list == old(list) + [x] && file == old(file) && lost == old(lost)
      ensures |old(list)| > limits.maxSize ==>
        && list == [x]
        && file == (if ok then old(file) + [old(list)] else old(file))
        && lost == (if ok then old(lost) else old(lost) + [old(list)])
    {
      if |list| > limits.maxSize {
        var r := Save(ok);
      }
      LockedPush(x);
    }

    method TuneDelay()
      requires limits.Valid()
      modifies this
      ensures View() == old(View()).(timeout := Tuned(limits, |old(list)|, old(timeoutSeconds)))
    {
      var count := |list|;
      if count < limits.sizePerStep {
        timeoutSeconds := timeoutSeconds * 2;
      } else {
        timeoutSeconds := timeoutSeconds / 2;
      }
      if timeoutSeconds == 0 {
        timeoutSeconds := limits.minTimeout;
      } else if timeoutSeconds > limits.maxTimeout {
        timeoutSeconds := limits.maxTimeout;
      }
    }
  }

  // ---- the threads ----

  // Where a thread is: about to push a record, in a save before the emptiness test, before the lock, before the
  // append. A save inside a put goes on to push the record of the put.
  datatype Phase =
    | Idle
    | Armed(item: Record)
    | Saving(next: Option<Record>)
    | Draining(next: Option<Record>)
    | Writing(next: Option<Record>, batch: Batch, number: nat)

  // The last thread is the background saver; the others put and flush.
  datatype State = State(shared: Shared, threads: seq<Phase>)

  datatype Step =
    | CheckSize(i: nat, x: Record)
    | Flush(i: nat)
    | Tick
    | CheckEmpty(i: nat)
    | TakeList(i: nat)
    | WriteFile(i: nat, ok: bool)
    | PushRecord(i: nat)

  function Resume(next: Option<Record>): Phase {
    if next.Some? then Armed(next.value) else Idle
  }

  function Start(l: Limits, n: nat): State {
    State(Shared([], l.defaultTimeout, [], [], [], [], []), seq(n + 1, _ => Idle))
  }

  // A step that the thread cannot make now changes nothing.
  function Next(l: Limits, s: State, step: Step): (s': State)
    requires l.Valid() && |s.threads| > 0
    ensures |s'.threads| == |s.threads|
  {
    var n := |s.threads| - 1;
    var sh := s.shared;
    match step
    case CheckSize(i, x) =>
      if i < n && s.threads[i].Idle? then
        s.(threads := s.threads[i := if |sh.list| > l.maxSize then Saving(Some(x)) else Armed(x)])
      else s
    case Flush(i) =>
      if i < n && s.threads[i].Idle? then s.(threads := s.threads[i := Saving(None)]) else s
    case Tick =>
      if s.threads[n].Idle? then
        State(sh.(timeout := Tuned(l, |sh.list|, sh.timeout)), s.threads[n := Saving(None)])
      else s
    case CheckEmpty(i) =>
      if i <= n && s.threads[i].Saving? then
        var next := s.threads[i].next;
        s.(threads := s.threads[i := if sh.list == [] then Resume(next) else Draining(next)])
      else s
    case TakeList(i) =>
      if i <= n && s.threads[i].Draining? then
        State(Drained(sh), s.threads[i := Writing(s.threads[i].next, sh.list, |sh.drained|)])
      else s
    case WriteFile(i, ok) =>
      if i <= n && s.threads[i].Writing? then
        State(Appended(sh, s.threads[i].batch, s.threads[i].number, ok), s.threads[i := Resume(s.threads[i].next)])
      else s
    case PushRecord(i) =>
      if i <= n && s.threads[i].Armed? then
        State(Pushed(sh, s.threads[i].item), s.threads[i := Idle])
      else s
  }

  function Run(l: Limits, s: State, steps: seq<Step>): (s': State)
    requires l.Valid() && |s.threads| > 0
    ensures |s'.threads| == |s.threads|
    decreases |steps|
  {
    if steps == [] then s else Run(l, Next(l, s, steps[0]), steps[1..])
  }

  // ---- one thread on its own ----

  // A save without interference is the steps of one thread: look, take, write.
  lemma SaveIsRun(l: Limits, s: State, i: nat, ok: bool)
    requires l.Valid() && i + 1 < |s.threads| && s.threads[i].Idle?
    ensures Run(l, s, [Flush(i), CheckEmpty(i), TakeList(i), WriteFile(i, ok)])
            == State(Saved(s.shared, ok), s.threads)
  {
    var steps := [Flush(i), CheckEmpty(i), TakeList(i), WriteFile(i, ok)];
    var s1 := Next(l, s, steps[0]);
    var s2 := Next(l, s1, steps[1]);
    var s3 := Next(l, s2, steps[2]);
    var s4 := Next(l, s3, steps[3]);
    assert s4.threads == s.threads && s4.shared == Saved(s.shared, ok);
    RunFour(l, s, steps, s1, s2, s3, s4);
  }

  // So is a put: look at the size, save if the list is too long, and push.
  lemma PutIsRun(l: Limits, s: State, i: nat, x: Record, ok: bool)
    requires l.Valid() && i + 1 < |s.threads| && s.threads[i].Idle?
    ensures Run(l, s, [CheckSize(i, x), CheckEmpty(i), TakeList(i), WriteFile(i, ok), PushRecord(i)])
            == State(Pushed(if |s.shared.list| > l.maxSize then Saved(s.shared, ok) else s.shared, x), s.threads)
  {
    var steps := [CheckSize(i, x), CheckEmpty(i), TakeList(i), WriteFile(i, ok), PushRecord(i)];
    var s1 := Next(l, s, steps[0]);
    var s2 := Next(l, s1, steps[1]);
    var s3 := Next(l, s2, steps[2]);
    var s4 := Next(l, s3, steps[3]);
    var s5 := Next(l, s4, steps[4]);
    if |s.shared.list| > l.maxSize {
      assert s4.threads == s.threads[i := Armed(x)] && s4.shared == Saved(s.shared, ok);
    } else {
      assert s4.threads == s.threads[i := Armed(x)] && s4.shared == s.shared;
    }
    assert s5.threads == s.threads;
    RunFive(l, s, steps, s1, s2, s3, s4, s5);
  }

  // A round of the saver without interference: the delay, then a save.
  lemma RoundIsRun(l: Limits, s: State, ok: bool)
    requires l.Valid() && |s.threads| > 0 && s.threads[|s.threads| - 1].Idle?
    ensures var n := |s.threads| - 1;
      Run(l, s, [Tick, CheckEmpty(n), TakeList(n), WriteFile(n, ok)])
      == State(Saved(s.shared.(timeout := Tuned(l, |s.shared.list|, s.shared.timeout)), ok), s.threads)
  {
    var n := |s.threads| - 1;
    var steps := [Tick, CheckEmpty(n), TakeList(n), WriteFile(n, ok)];
    var s1 := Next(l, s, steps[0]);
    var s2 := Next(l, s1, steps[1]);
    var s3 := Next(l, s2, steps[2]);
    var s4 := Next(l, s3, steps[3]);
    assert s4.threads == s.threads;
    RunFour(l, s, steps, s1, s2, s3, s4);
  }

  lemma RunFour(l: Limits, s: State, steps: seq<Step>, s1: State, s2: State, s3: State, s4: State)
    requires l.Valid() && |s.threads| > 0 && |steps| == 4
    requires s1 == Next(l, s, steps[0]) && s2 == Next(l, s1, steps[1])
    requires s3 == Next(l, s2, steps[2]) && s4 == Next(l, s3, steps[3])
    ensures Run(l, s, steps) == s4
  {
    hide Next;
    assert Run(l, s4, []) == s4;
    RunStep(l, s3, steps[3], []);
    RunStep(l, s2, steps[2], [steps[3]]);
    RunStep(l, s1, steps[1], [steps[2], steps[3]]);
    RunStep(l, s, steps[0], [steps[1], steps[2], steps[3]]);
    assert steps == [steps[0]] + [steps[1], steps[2], steps[3]];
    assert [steps[1], steps[2], steps[3]] == [steps[1]] + [steps[2], steps[3]];
    assert [steps[2], steps[3]] == [steps[2]] + [steps[3]];
    assert [steps[3]] == [steps[3]] + [];
  }

  // ---- nothing is lost or duplicated in the list ----

  function Flat(batches: seq<Batch>): Batch {
    if batches == [] then [] else Flat(batches[..|batches| - 1]) + batches[|batches| - 1]
  }

  // The records pushed are those taken from the list, in order, and then those still in it.
  ghost predicate Conserved(s: State) {
    Flat(s.shared.drained) + s.shared.list == s.shared.pushed
  }

  lemma FlatSnoc(batches: seq<Batch>, b: Batch)
    ensures Flat(batches + [b]) == Flat(batches) + b
  {
    assert (batches + [b])[..|batches|] == batches;
  }

  lemma NextConserves(l: Limits, s: State, step: Step)
    requires l.Valid() && |s.threads| > 0 && Conserved(s)
    ensures Conserved(Next(l, s, step))
  {
    hide Flat;
    var sh, sh' := s.shared, Next(l, s, step).shared;
    if sh'.drained != sh.drained {
      FlatSnoc(sh.drained, sh.list);
    } else if sh'.list != sh.list {
      var x := sh'.list[|sh.list|];
      assert Flat(sh.drained) + (sh.list + [x]) == Flat(sh.drained) + sh.list + [x];
    }
  }

  lemma {:induction false} RunConserves(l: Limits, s: State, steps: seq<Step>)
    requires l.Valid() && |s.threads| > 0 && Conserved(s)
    ensures Conserved(Run(l, s, steps))
    decreases |steps|
  {
    if steps != [] {
      hide Next, Conserved;
      NextConserves(l, s, steps[0]);
      RunConserves(l, Next(l, s, steps[0]), steps[1..]);
    }
  }

  // ---- the list stays small ----

  // The thread will push without looking at the list again.
  predicate Committed(p: Phase) {
    p.Armed? || (p.Writing? && p.next.Some?)
  }

  function CountCommitted(threads: seq<Phase>): (c: nat)
    ensures c <= |threads|
  {
    if threads == [] then 0 else (if Committed(threads[0]) then 1 else 0) + CountCommitted(threads[1..])
  }

  lemma {:induction false} CountUpdate(threads: seq<Phase>, i: nat, p: Phase)
    requires i < |threads|
    ensures CountCommitted(threads[i := p]) + (if Committed(threads[i]) then 1 else 0)
            == CountCommitted(threads) + (if Committed(p) then 1 else 0)
    decreases i
  {
    if i == 0 {
      assert threads[0 := p][1..] == threads[1..];
    } else {
      CountUpdate(threads[1..], i - 1, p);
      assert threads[i := p][1..] == threads[1..][i - 1 := p];
    }
  }

  lemma {:induction false} CountBelow(threads: seq<Phase>)
    requires |threads| > 0 && !Committed(threads[|threads| - 1])
    ensures CountCommitted(threads) <= |threads| - 1
  {
    if |threads| > 1 {
      CountBelow(threads[1..]);
    }
  }

  // The saver carries no record; with n other threads the list and what they are about to push is at most
  // maxSize + n records, and the delay is in range.
  ghost predicate Bounded(l: Limits, s: State) {
    && |s.threads| > 0
    && var n := |s.threads| - 1;
    && !s.threads[n].Armed? && (s.threads[n].Idle? || s.threads[n].next == None)
    && |s.shared.list| + CountCommitted(s.threads) <= l.maxSize + n
    && 0 < s.shared.timeout <= l.maxTimeout
  }

  // Thread i moves to phase p: the bound holds when the list is short, or when no more records are added or about
  // to be added than before.
  lemma Moved(l: Limits, s: State, i: nat, p: Phase, sh: Shared)
    requires Bounded(l, s) && i < |s.threads| && 0 < sh.timeout <= l.maxTimeout
    requires i == |s.threads| - 1 ==> !p.Armed? && (p.Idle? || p.next == None)
    requires || |sh.list| <= l.maxSize
             || |sh.list| + (if Committed(p) then 1 else 0)
                <= |s.shared.list| + (if Committed(s.threads[i]) then 1 else 0)
    ensures Bounded(l, State(sh, s.threads[i := p]))
  {
    CountUpdate(s.threads, i, p);
    CountBelow(s.threads[i := p]);
  }

  lemma NextBounded(l: Limits, s: State, step: Step)
    requires l.Valid() && Bounded(l, s)
    ensures Bounded(l, Next(l, s, step))
  {
    var i := if step.Tick? then |s.threads| - 1 else step.i;
    var s' := Next(l, s, step);
    if s' != s {
      hide CountCommitted;
      assert s' == State(s'.shared, s.threads[i := s'.threads[i]]);
      Moved(l, s, i, s'.threads[i], s'.shared);
    }
  }

  lemma {:induction false} RunBounded(l: Limits, s: State, steps: seq<Step>)
    requires l.Valid() && Bounded(l, s)
    ensures Bounded(l, Run(l, s, steps))
    decreases |steps|
  {
    if steps != [] {
      hide Next, Bounded;
      NextBounded(l, s, steps[0]);
      RunBounded(l, Next(l, s, steps[0]), steps[1..]);
    }
  }

  // With n threads that put, in every interleaving: the list never exceeds maxSize + n records, and nothing is lost
  // or duplicated before the file is written.
  lemma EveryRun(l: Limits, n: nat, steps: seq<Step>)
    requires l.Valid()
    ensures var sh := Run(l, Start(l, n), steps).shared;
            && |sh.list| <= l.maxSize + n
            && Flat(sh.drained) + sh.list == sh.pushed
            && 0 < sh.timeout <= l.maxTimeout
  {
    var s := Start(l, n);
    NoneCommitted(s.threads);
    RunBounded(l, s, steps);
    RunConserves(l, s, steps);
  }

  lemma {:induction false} NoneCommitted(threads: seq<Phase>)
    requires forall i :: 0 <= i < |threads| ==> !Committed(threads[i])
    ensures CountCommitted(threads) == 0
  {
    if threads != [] {
      NoneCommitted(threads[1..]);
    }
  }

  // ---- the bound is reached ----

  lemma {:induction false} RunJoin(l: Limits, s: State, x: seq<Step>, y: seq<Step>)
    requires l.Valid() && |s.threads| > 0
    ensures Run(l, s, x + y) == Run(l, Run(l, s, x), y)
    decreases |x|
  {
    hide Next;
    if x == [] {
      assert x + y == y;
    } else {
      assert (x + y)[1..] == x[1..] + y;
      RunJoin(l, Next(l, s, x[0]), x[1..], y);
    }
  }

  // One thread puts k records, undisturbed.
  function PutSteps(k: nat, x: Record): seq<Step> {
    if k == 0 then [] else PutSteps(k - 1, x) + [CheckSize(0, x), PushRecord(0)]
  }

  // The first k threads look at the size; the first k threads push.
  function CheckSteps(k: nat, x: Record): seq<Step> {
    if k == 0 then [] else CheckSteps(k - 1, x) + [CheckSize(k - 1, x)]
  }

  function PushSteps(k: nat): seq<Step> {
    if k == 0 then [] else PushSteps(k - 1) + [PushRecord(k - 1)]
  }

  lemma {:induction false} Fill(l: Limits, n: nat, k: nat, x: Record)
    requires l.Valid() && n > 0 && k <= l.maxSize
    ensures var s := Run(l, Start(l, n), PutSteps(k, x));
            |s.shared.list| == k && s.threads == Start(l, n).threads
  {
    if k > 0 {
      Fill(l, n, k - 1, x);
      var s := Run(l, Start(l, n), PutSteps(k - 1, x));
      RunJoin(l, Start(l, n), PutSteps(k - 1, x), [CheckSize(0, x), PushRecord(0)]);
      var s1 := Next(l, s, CheckSize(0, x));
      assert s1.threads[0] == Armed(x);
      var s2 := Next(l, s1, PushRecord(0));
      assert [CheckSize(0, x), PushRecord(0)][1..] == [PushRecord(0)];
      assert Run(l, s1, [PushRecord(0)]) == Run(l, s2, []);
      assert s2.threads == s.threads;
    }
  }

  // k threads armed, the others idle.
  predicate ArmedBelow(s: State, n: nat, k: nat, x: Record) {
    && |s.threads| == n + 1 && k <= n
    && forall i :: 0 <= i <= n ==> s.threads[i] == if i < k then Armed(x) else Idle
  }

  lemma {:induction false} AllCheck(l: Limits, s: State, n: nat, k: nat, x: Record)
    requires l.Valid() && ArmedBelow(s, n, 0, x) && |s.shared.list| <= l.maxSize && k <= n
    ensures var s' := Run(l, s, CheckSteps(k, x)); ArmedBelow(s', n, k, x) && s'.shared == s.shared
  {
    if k > 0 {
      AllCheck(l, s, n, k - 1, x);
      var s1 := Run(l, s, CheckSteps(k - 1, x));
      RunJoin(l, s, CheckSteps(k - 1, x), [CheckSize(k - 1, x)]);
      assert Run(l, Next(l, s1, CheckSize(k - 1, x)), []) == Next(l, s1, CheckSize(k - 1, x));
    }
  }

  lemma {:induction false} AllPush(l: Limits, s: State, n: nat, k: nat, x: Record)
    requires l.Valid() && ArmedBelow(s, n, n, x) && k <= n
    ensures var s' := Run(l, s, PushSteps(k));
            && |s'.shared.list| == |s.shared.list| + k
            && forall i :: k <= i < n ==> s'.threads[i] == Armed(x)
  {
    if k > 0 {
      AllPush(l, s, n, k - 1, x);
      var s1 := Run(l, s, PushSteps(k - 1));
      RunJoin(l, s, PushSteps(k - 1), [PushRecord(k - 1)]);
      assert Run(l, Next(l, s1, PushRecord(k - 1)), []) == Next(l, s1, PushRecord(k - 1));
    }
  }

  // Some interleaving of n threads makes the list exactly maxSize + n long.
  lemma BoundIsReached(l: Limits, n: nat, x: Record)
    requires l.Valid() && n > 0
    ensures exists steps :: |Run(l, Start(l, n), steps).shared.list| == l.maxSize + n
  {
    var fill, check, push := PutSteps(l.maxSize, x), CheckSteps(n, x), PushSteps(n);
    Fill(l, n, l.maxSize, x);
    var full := Run(l, Start(l, n), fill);
    AllCheck(l, full, n, n, x);
    var armed := Run(l, full, check);
    AllPush(l, armed, n, n, x);
    RunJoin(l, Start(l, n), fill, check + push);
    RunJoin(l, full, check, push);
    assert |Run(l, Start(l, n), fill + (check + push)).shared.list| == l.maxSize + n;
  }

  // The two services: at most 1024 records beyond the putting threads, reached by some interleaving of n > 0
  // threads, and a delay of one second to five minutes.
  lemma ServicesAreBounded(n: nat, steps: seq<Step>)
    ensures var device := Run(DEVICE_STAT, Start(DEVICE_STAT, n), steps).shared;
            |device.list| <= 1024 + n && 1 <= device.timeout <= 300
    ensures var gateway := Run(GW_STAT, Start(GW_STAT, n), steps).shared;
            |gateway.list| <= 1024 + n && 1 <= gateway.timeout <= 300
  {
    hide Run;
    EveryRun(DEVICE_STAT, n, steps);
    EveryRun(GW_STAT, n, steps);
  }

  // The delays of the two services, in seconds.
  lemma ServiceDelays(count: nat, timeout: nat)
    requires 1 <= timeout <= 300
    ensures Tuned(DEVICE_STAT, count, timeout) ==
            if count < 256 then (if timeout <= 150 then 2 * timeout else 300)
            else if timeout == 1 then 1 else timeout / 2
    ensures Tuned(GW_STAT, count, timeout) ==
            if count < 128 then (if timeout <= 150 then 2 * timeout else 300)
            else if timeout == 1 then 1 else timeout / 2
  {
  }

  lemma ServicesReachBound(n: nat, x: Record)
    requires n > 0
    ensures exists steps :: |Run(DEVICE_STAT, Start(DEVICE_STAT, n), steps).shared.list| == 1024 + n
    ensures exists steps :: |Run(GW_STAT, Start(GW_STAT, n), steps).shared.list| == 1024 + n
  {
    hide Run;
    BoundIsReached(DEVICE_STAT, n, x);
    BoundIsReached(GW_STAT, n, x);
  }

  // ---- what becomes of the batches ----

  // The batches taken from the list and not yet written.
  function InFlight(threads: seq<Phase>): seq<Batch> {
    if threads == [] then []
    else (if threads[0].Writing? then [threads[0].batch] else []) + InFlight(threads[1..])
  }

  function Held(p: Phase): seq<Batch> {
    if p.Writing? then [p.batch] else []
  }

  lemma {:induction false} FlightAt(threads: seq<Phase>, i: nat)
    requires i < |threads|
    ensures InFlight(threads) == InFlight(threads[..i]) + Held(threads[i]) + InFlight(threads[i + 1..])
  {
    if i > 0 {
      FlightAt(threads[1..], i - 1);
      assert threads[..i][1..] == threads[1..][..i - 1];
      assert threads[1..][i..] == threads[i + 1..];
    }
  }

  lemma FlightUpdate(threads: seq<Phase>, i: nat, p: Phase)
    requires i < |threads|
    ensures InFlight(threads) == InFlight(threads[..i]) + Held(threads[i]) + InFlight(threads[i + 1..])
    ensures InFlight(threads[i := p]) == InFlight(threads[..i]) + Held(p) + InFlight(threads[i + 1..])
  {
    FlightAt(threads, i);
    FlightAt(threads[i := p], i);
    assert threads[i := p][..i] == threads[..i] && threads[i := p][i + 1..] == threads[i + 1..];
  }

  // Every batch taken from the list is in the file, lost by a failed append, or about to be written: once.
  ghost predicate Accounted(s: State) {
    multiset(s.shared.file) + multiset(s.shared.lost) + multiset(InFlight(s.threads)) == multiset(s.shared.drained)
  }

  // One step takes at most one batch into flight or writes one that is.
  ghost predicate FlightStep(s: Shared, s': Shared, step: Step, held: seq<Batch>, held': seq<Batch>) {
    || (s'.drained == s.drained && s'.file == s.file && s'.lost == s.lost && held == held')
    || (step.TakeList? && s' == Drained(s) && held == [] && held' == [s.list])
    || (step.WriteFile? && |held| == 1 && held' == [] && s'.drained == s.drained
        && s'.file == (if step.ok then s.file + held else s.file)
        && s'.lost == (if step.ok then s.lost else s.lost + held))
  }

  lemma NextFlight(l: Limits, s: State, step: Step)
    returns (a: seq<Batch>, held: seq<Batch>, held': seq<Batch>, c: seq<Batch>)
    requires l.Valid() && |s.threads| > 0
    ensures InFlight(s.threads) == a + held + c && InFlight(Next(l, s, step).threads) == a + held' + c
    ensures FlightStep(s.shared, Next(l, s, step).shared, step, held, held')
  {
    var i := if step.Tick? then |s.threads| - 1 else step.i;
    var s' := Next(l, s, step);
    hide InFlight;
    if s' == s {
      a, held, held', c := InFlight(s.threads), [], [], [];
    } else {
      assert s'.threads == s.threads[i := s'.threads[i]];
      FlightUpdate(s.threads, i, s'.threads[i]);
      a, c := InFlight(s.threads[..i]), InFlight(s.threads[i + 1..]);
      held, held' := Held(s.threads[i]), Held(s'.threads[i]);
    }
  }

  lemma FlightAccounts(s: Shared, s': Shared, step: Step, held: seq<Batch>, held': seq<Batch>, rest: multiset<Batch>)
    requires FlightStep(s, s', step, held, held')
    requires multiset(s.file) + multiset(s.lost) + (rest + multiset(held)) == multiset(s.drained)
    ensures multiset(s'.file) + multiset(s'.lost) + (rest + multiset(held')) == multiset(s'.drained)
  {
    if |held| == 1 {
      assert multiset(s.file + held) == multiset(s.file) + multiset(held);
      assert multiset(s.lost + held) == multiset(s.lost) + multiset(held);
    } else if held != held' {
      assert multiset(s.drained + [s.list]) == multiset(s.drained) + multiset([s.list]);
    }
  }

  lemma NextAccounts(l: Limits, s: State, step: Step)
    requires l.Valid() && |s.threads| > 0 && Accounted(s)
    ensures Accounted(Next(l, s, step))
  {
    hide Next, InFlight, FlightStep;
    var a, held, held', c := NextFlight(l, s, step);
    var rest := multiset(a) + multiset(c);
    assert multiset(a + held + c) == rest + multiset(held);
    assert multiset(a + held' + c) == rest + multiset(held');
    FlightAccounts(s.shared, Next(l, s, step).shared, step, held, held', rest);
  }

  lemma {:induction false} RunAccounts(l: Limits, s: State, steps: seq<Step>)
    requires l.Valid() && |s.threads| > 0 && Accounted(s)
    ensures Accounted(Run(l, s, steps))
    decreases |steps|
  {
    if steps != [] {
      hide Next, Accounted;
      NextAccounts(l, s, steps[0]);
      RunAccounts(l, Next(l, s, steps[0]), steps[1..]);
    }
  }

  lemma {:induction false} NoneInFlight(threads: seq<Phase>)
    requires forall i :: 0 <= i < |threads| ==> !threads[i].Writing?
    ensures InFlight(threads) == []
  {
    if threads != [] {
      NoneInFlight(threads[1..]);
    }
  }

  lemma EveryBatchIsAccounted(l: Limits, n: nat, steps: seq<Step>)
    requires l.Valid()
    ensures Accounted(Run(l, Start(l, n), steps))
  {
    NoneInFlight(Start(l, n).threads);
    RunAccounts(l, Start(l, n), steps);
  }

  // ---- the order of the file ----

  // No thread takes the list while another still has a batch to write, and no append fails.
  ghost predicate OneAtATime(l: Limits, s: State, steps: seq<Step>)
    requires l.Valid() && |s.threads| > 0
    decreases |steps|
  {
    steps != [] ==>
      && (steps[0].TakeList? ==> InFlight(s.threads) == [])
      && (steps[0].WriteFile? ==> steps[0].ok)
      && OneAtATime(l, Next(l, s, steps[0]), steps[1..])
  }

  ghost predicate InOrder(s: State) {
    s.shared.drained == s.shared.file + InFlight(s.threads) && |InFlight(s.threads)| <= 1
  }

  lemma NextInOrder(l: Limits, s: State, step: Step)
    requires l.Valid() && |s.threads| > 0 && InOrder(s)
    requires step.TakeList? ==> InFlight(s.threads) == []
    requires step.WriteFile? ==> step.ok
    ensures InOrder(Next(l, s, step))
  {
    hide Next, InFlight;
    var a, held, held', c := NextFlight(l, s, step);
    assert |a| + |held| + |c| <= 1;
    if |held| == 1 {
      assert a + held + c == held && a + held' + c == held';
    }
  }

  lemma {:induction false} RunInOrder(l: Limits, s: State, steps: seq<Step>)
    requires l.Valid() && |s.threads| > 0 && InOrder(s) && OneAtATime(l, s, steps)
    ensures InOrder(Run(l, s, steps))
    decreases |steps|
  {
    if steps != [] {
      hide Next, InOrder;
      NextInOrder(l, s, steps[0]);
      RunInOrder(l, Next(l, s, steps[0]), steps[1..]);
    }
  }

  // Then the file, what is being written and the list are the records in the order they were pushed.
  lemma SerialSavesKeepOrder(l: Limits, n: nat, steps: seq<Step>)
    requires l.Valid() && OneAtATime(l, Start(l, n), steps)
    ensures var s := Run(l, Start(l, n), steps);
            Flat(s.shared.file) + Flat(InFlight(s.threads)) + s.shared.list == s.shared.pushed
  {
    var s := Run(l, Start(l, n), steps);
    NoneInFlight(Start(l, n).threads);
    RunInOrder(l, Start(l, n), steps);
    RunConserves(l, Start(l, n), steps);
    FlatOfOne(s.shared.file, InFlight(s.threads));
  }

  lemma FlatOfOne(batches: seq<Batch>, more: seq<Batch>)
    requires |more| <= 1
    ensures Flat(batches + more) == Flat(batches) + Flat(more)
  {
    assert Flat([]) == [];
    hide Flat;
    if more == [] {
      assert batches + more == batches;
    } else {
      assert more == [more[0]] == [] + [more[0]];
      FlatSnoc(batches, more[0]);
      FlatSnoc([], more[0]);
    }
  }

  // Every append that succeeds writes the batch that was taken right after those already in the file.
  ghost predicate AppendsNext(l: Limits, s: State, steps: seq<Step>)
    requires l.Valid() && |s.threads| > 0
    decreases |steps|
  {
    steps != [] ==> AppendIsNext(s, steps[0]) && AppendsNext(l, Next(l, s, steps[0]), steps[1..])
  }

  ghost predicate AppendIsNext(s: State, step: Step) {
    step.WriteFile? && step.ok && step.i < |s.threads| && s.threads[step.i].Writing? ==>
      var k := |s.shared.file|;
      k < |s.shared.drained| && s.shared.drained[k] == s.threads[step.i].batch
  }

  lemma NextGrows(l: Limits, s: State, step: Step)
    requires l.Valid() && |s.threads| > 0
    ensures s.shared.file <= Next(l, s, step).shared.file && s.shared.drained <= Next(l, s, step).shared.drained
  {
  }

  // File and batches only grow.
  lemma {:induction false} RunGrows(l: Limits, s: State, steps: seq<Step>)
    requires l.Valid() && |s.threads| > 0
    ensures s.shared.file <= Run(l, s, steps).shared.file && s.shared.drained <= Run(l, s, steps).shared.drained
    decreases |steps|
  {
    if steps != [] {
      hide Next;
      NextGrows(l, s, steps[0]);
      RunGrows(l, Next(l, s, steps[0]), steps[1..]);
    }
  }

  lemma {:induction false} HeldInFlight(threads: seq<Phase>, i: nat)
    requires i < |threads| && threads[i].Writing?
    ensures |InFlight(threads)| > 0
  {
    FlightAt(threads, i);
  }

  // A batch that is about to be written is not in the file yet.
  lemma RoomInDrained(s: State, i: nat)
    requires Accounted(s)
    ensures |s.shared.file| <= |s.shared.drained|
    ensures i < |s.threads| && s.threads[i].Writing? ==> |s.shared.file| < |s.shared.drained|
  {
    var sh, flight := s.shared, InFlight(s.threads);
    assert |multiset(sh.file) + multiset(sh.lost) + multiset(flight)| == |sh.file| + |sh.lost| + |flight|;
    if i < |s.threads| && s.threads[i].Writing? {
      HeldInFlight(s.threads, i);
    }
  }

  lemma NextInPlace(l: Limits, s: State, step: Step, last: seq<Batch>)
    requires l.Valid() && |s.threads| > 0 && Accounted(s) && s.shared.file <= s.shared.drained
    requires Next(l, s, step).shared.drained <= last
    ensures AppendIsNext(s, step) <==> Next(l, s, step).shared.file <= last
    ensures AppendIsNext(s, step) ==> Next(l, s, step).shared.file <= Next(l, s, step).shared.drained
  {
    NextGrows(l, s, step);
    if step.WriteFile? {
      RoomInDrained(s, step.i);
    }
  }

  lemma {:induction false} RunInPlace(l: Limits, s: State, steps: seq<Step>)
    requires l.Valid() && |s.threads| > 0 && Accounted(s) && s.shared.file <= s.shared.drained
    ensures var sh := Run(l, s, steps).shared; sh.file <= sh.drained <==> AppendsNext(l, s, steps)
    decreases |steps|
  {
    if steps != [] {
      hide Next, Accounted, AppendIsNext;
      var s', last := Next(l, s, steps[0]), Run(l, s, steps).shared;
      NextAccounts(l, s, steps[0]);
      RunGrows(l, s', steps[1..]);
      NextInPlace(l, s, steps[0], last.drained);
      if AppendIsNext(s, steps[0]) {
        RunInPlace(l, s', steps[1..]);
      }
    }
  }

  lemma {:induction false} FlatPrefix(x: seq<Batch>, y: seq<Batch>)
    requires x <= y
    ensures Flat(x) <= Flat(y)
    decreases |y|
  {
    if x != y {
      FlatPrefix(x, y[..|y| - 1]);
    }
  }

  // What is out of order stays so: the file holds the first batches taken exactly when it did after every append.
  lemma DisorderIsFinal(l: Limits, n: nat, steps: seq<Step>)
    requires l.Valid()
    ensures var sh := Run(l, Start(l, n), steps).shared;
            && (sh.file <= sh.drained <==> AppendsNext(l, Start(l, n), steps))
            && (sh.file <= sh.drained ==> Flat(sh.file) <= sh.pushed)
  {
    hide AppendsNext;
    var sh := Run(l, Start(l, n), steps).shared;
    NoneInFlight(Start(l, n).threads);
    RunInPlace(l, Start(l, n), steps);
    RunConserves(l, Start(l, n), steps);
    if sh.file <= sh.drained {
      FlatPrefix(sh.file, sh.drained);
    }
  }

  // ---- which schedules keep the order ----

  // The threads that have taken the list and not written it yet, in the order they took it; closed once an append
  // has failed: what was taken after the lost batch has no place in the file any more.
  datatype Line = Line(queue: seq<nat>, open: bool)

  predicate Takes(s: State, step: Step) {
    step.TakeList? && step.i < |s.threads| && s.threads[step.i].Draining?
  }

  predicate Writes(s: State, step: Step) {
    step.WriteFile? && step.i < |s.threads| && s.threads[step.i].Writing?
  }

  // The part of the queue in front of thread i.
  function Before(queue: seq<nat>, i: nat): (front: seq<nat>)
    ensures front <= queue && i !in front
    ensures |front| < |queue| ==> queue[|front|] == i
  {
    if queue == [] || queue[0] == i then [] else [queue[0]] + Before(queue[1..], i)
  }

  function Follow(line: Line, s: State, step: Step): Line {
    if Takes(s, step) then
      if line.open then line.(queue := line.queue + [step.i]) else line
    else if Writes(s, step) then
      if step.ok then (if line.queue == [] then line else line.(queue := line.queue[1..]))
      else if step.i in line.queue then Line(Before(line.queue, step.i), false)
      else line
    else line
  }

  // A successful append is made by the thread at the head of the line.
  predicate InTurn(line: Line, s: State, step: Step) {
    Writes(s, step) && step.ok ==> line.queue != [] && line.queue[0] == step.i
  }

  ghost predicate AllInTurn(l: Limits, s: State, steps: seq<Step>, line: Line)
    requires l.Valid() && |s.threads| > 0
    decreases |steps|
  {
    steps != [] ==>
      InTurn(line, s, steps[0]) && AllInTurn(l, Next(l, s, steps[0]), steps[1..], Follow(line, s, steps[0]))
  }

  // The k-th batch of the file is the k-th that was taken.
  ghost predicate TakenInOrder(sh: Shared) {
    forall k :: 0 <= k < |sh.order| ==> sh.order[k] == k
  }

  // A batch in flight is the one its number says, and numbers are not shared.
  ghost predicate Numbered(s: State) {
    && |s.shared.order| == |s.shared.file|
    && (forall k :: 0 <= k < |s.shared.order| ==>
          s.shared.order[k] < |s.shared.drained| && s.shared.file[k] == s.shared.drained[s.shared.order[k]])
    && (forall i :: 0 <= i < |s.threads| && s.threads[i].Writing? ==>
          s.threads[i].number < |s.shared.drained|
          && s.threads[i].batch == s.shared.drained[s.threads[i].number])
    && (forall i, j :: 0 <= i < j < |s.threads| && s.threads[i].Writing? && s.threads[j].Writing? ==>
          s.threads[i].number != s.threads[j].number)
  }

  // The line holds the threads whose batches come next in the file. An open line holds all that are in flight;
  // behind a closed one the lost batch is missing.
  ghost predicate Lined(s: State, line: Line) {
    var m, q := |s.shared.file|, line.queue;
    && (forall p :: 0 <= p < |q| ==>
          q[p] < |s.threads| && s.threads[q[p]].Writing? && s.threads[q[p]].number == m + p)
    && (if line.open then |s.shared.drained| == m + |q|
        else
          m + |q| < |s.shared.drained|
          && forall i :: 0 <= i < |s.threads| && s.threads[i].Writing? ==> s.threads[i].number != m + |q|)
  }

  lemma NextNumbered(l: Limits, s: State, step: Step)
    requires l.Valid() && |s.threads| > 0 && Numbered(s)
    ensures Numbered(Next(l, s, step))
  {
  }

  lemma TakeLined(l: Limits, s: State, step: Step, line: Line)
    requires l.Valid() && |s.threads| > 0 && Numbered(s) && Lined(s, line) && Takes(s, step)
    ensures Lined(Next(l, s, step), Follow(line, s, step))
  {
  }

  lemma WriteLined(l: Limits, s: State, step: Step, line: Line)
    requires l.Valid() && |s.threads| > 0 && Numbered(s) && Lined(s, line) && InTurn(line, s, step)
    requires Writes(s, step) && step.ok
    ensures Lined(Next(l, s, step), Follow(line, s, step))
  {
  }

  lemma FailLined(l: Limits, s: State, step: Step, line: Line)
    requires l.Valid() && |s.threads| > 0 && Numbered(s) && Lined(s, line)
    requires Writes(s, step) && !step.ok
    ensures Lined(Next(l, s, step), Follow(line, s, step))
  {
    var i, s' := step.i, Next(l, s, step);
    if i in line.queue {
      var front := Before(line.queue, i);
      assert |front| < |line.queue|;
      assert s.threads[i].number == |s.shared.file| + |front|;
    }
  }

  lemma OtherLined(l: Limits, s: State, step: Step, line: Line)
    requires l.Valid() && |s.threads| > 0 && Numbered(s) && Lined(s, line)
    requires !Takes(s, step) && !Writes(s, step)
    ensures Lined(Next(l, s, step), Follow(line, s, step))
  {
  }

  lemma NextLined(l: Limits, s: State, step: Step, line: Line)
    requires l.Valid() && |s.threads| > 0 && Numbered(s) && Lined(s, line) && InTurn(line, s, step)
    ensures Lined(Next(l, s, step), Follow(line, s, step))
  {
    hide Next, Numbered, Lined, Follow;
    if Takes(s, step) {
      TakeLined(l, s, step, line);
    } else if Writes(s, step) && step.ok {
      WriteLined(l, s, step, line);
    } else if Writes(s, step) {
      FailLined(l, s, step, line);
    } else {
      OtherLined(l, s, step, line);
    }
  }

  // The thread at the head of the line is the one whose batch comes next.
  lemma HeadIsNext(s: State, line: Line, i: nat)
    requires Numbered(s) && Lined(s, line) && i < |s.threads| && s.threads[i].Writing?
    ensures line.queue != [] && line.queue[0] == i <==> s.threads[i].number == |s.shared.file|
  {
  }

  // One step keeps the numbers in order exactly when it is in turn.
  lemma NextInTurn(l: Limits, s: State, step: Step, line: Line)
    requires l.Valid() && |s.threads| > 0 && Numbered(s) && Lined(s, line) && TakenInOrder(s.shared)
    ensures TakenInOrder(Next(l, s, step).shared) <==> InTurn(line, s, step)
  {
    if Writes(s, step) {
      HeadIsNext(s, line, step.i);
      hide Lined;
      var sh' := Next(l, s, step).shared;
      assert step.ok ==> sh'.order == s.shared.order + [s.threads[step.i].number];
      assert step.ok ==> sh'.order[|s.shared.order|] == s.threads[step.i].number;
    }
  }

  lemma NextOrders(l: Limits, s: State, step: Step)
    requires l.Valid() && |s.threads| > 0
    ensures s.shared.order <= Next(l, s, step).shared.order
  {
  }

  lemma {:induction false} RunOrders(l: Limits, s: State, steps: seq<Step>)
    requires l.Valid() && |s.threads| > 0
    ensures s.shared.order <= Run(l, s, steps).shared.order
    decreases |steps|
  {
    if steps != [] {
      hide Next;
      NextOrders(l, s, steps[0]);
      RunOrders(l, Next(l, s, steps[0]), steps[1..]);
    }
  }

  lemma OrderPrefix(x: Shared, y: Shared)
    requires x.order <= y.order && TakenInOrder(y)
    ensures TakenInOrder(x)
  {
  }

  lemma {:induction false} RunInTurn(l: Limits, s: State, steps: seq<Step>, line: Line)
    requires l.Valid() && |s.threads| > 0 && Numbered(s) && Lined(s, line) && TakenInOrder(s.shared)
    ensures TakenInOrder(Run(l, s, steps).shared) <==> AllInTurn(l, s, steps, line)
    ensures Numbered(Run(l, s, steps))
    decreases |steps|
  {
    if steps != [] {
      hide Next, Numbered, Lined, TakenInOrder, InTurn, Follow;
      var s' := Next(l, s, steps[0]);
      NextNumbered(l, s, steps[0]);
      NextInTurn(l, s, steps[0], line);
      RunOrders(l, s', steps[1..]);
      if InTurn(line, s, steps[0]) {
        NextLined(l, s, steps[0], line);
        RunInTurn(l, s', steps[1..], Follow(line, s, steps[0]));
      } else {
        RunNumbered(l, s', steps[1..]);
        if TakenInOrder(Run(l, s', steps[1..]).shared) {
          OrderPrefix(s'.shared, Run(l, s', steps[1..]).shared);
        }
      }
    }
  }

  lemma {:induction false} RunNumbered(l: Limits, s: State, steps: seq<Step>)
    requires l.Valid() && |s.threads| > 0 && Numbered(s)
    ensures Numbered(Run(l, s, steps))
    decreases |steps|
  {
    if steps != [] {
      hide Next, Numbered;
      NextNumbered(l, s, steps[0]);
      RunNumbered(l, Next(l, s, steps[0]), steps[1..]);
    }
  }

  // In order by number is in order by content; the other way round if no two batches are the same.
  lemma OrderOfContent(s: State)
    requires Numbered(s)
    ensures TakenInOrder(s.shared) ==> |s.shared.file| <= |s.shared.drained| && s.shared.file <= s.shared.drained
    ensures s.shared.file <= s.shared.drained && Different(s.shared.drained) ==> TakenInOrder(s.shared)
  {
    var sh := s.shared;
    if TakenInOrder(sh) {
      if |sh.order| > 0 {
        assert sh.order[|sh.order| - 1] < |sh.drained|;
      }
      assert sh.file == sh.drained[..|sh.file|];
    }
  }

  ghost predicate Different(batches: seq<Batch>) {
    forall i, j :: 0 <= i < j < |batches| ==> batches[i] != batches[j]
  }

  // In every interleaving, failed appends included: the k-th batch of the file is the k-th that was taken, for all k,
  // exactly when every successful append was made by the thread that had waited longest, and none was made from
  // behind a failed one. Then the records in the file are the first that were pushed. If no two batches have the same
  // content, the file is the beginning of what was taken for these schedules only.
  lemma FileKeepsOrder(l: Limits, n: nat, steps: seq<Step>)
    requires l.Valid()
    ensures var sh := Run(l, Start(l, n), steps).shared;
      var inTurn := AllInTurn(l, Start(l, n), steps, Line([], true));
      && (TakenInOrder(sh) <==> inTurn)
      && (inTurn ==> sh.file <= sh.drained && Flat(sh.file) <= sh.pushed)
      && (Different(sh.drained) ==> (sh.file <= sh.drained <==> inTurn))
  {
    hide AllInTurn, Run, TakenInOrder, Flat, Different;
    var s := Start(l, n);
    StartInOrder(l, n);
    RunInTurn(l, s, steps, Line([], true));
    OrderOfContent(Run(l, s, steps));
    DisorderIsFinal(l, n, steps);
  }

  lemma StartInOrder(l: Limits, n: nat)
    ensures var s := Start(l, n); Numbered(s) && Lined(s, Line([], true)) && TakenInOrder(s.shared)
  {
  }

  // With any number of putting threads, the saver and one of them can write the file in the other order: the saver
  // takes the first record, the thread puts, takes and writes the second, and then the saver writes.
  lemma FileCanBeOutOfOrder(l: Limits, n: nat, x: Record, y: Record)
    requires l.Valid() && n > 0
    ensures exists steps ::
      var sh := Run(l, Start(l, n), steps).shared; sh.pushed == [x, y] && sh.file == [[y], [x]]
  {
    var first := [CheckSize(0, x), PushRecord(0), Tick, CheckEmpty(n), TakeList(n)];
    var second := [CheckSize(0, y), PushRecord(0), Flush(0), CheckEmpty(0), TakeList(0)];
    var writes := [WriteFile(0, true), WriteFile(n, true)];
    var s := Start(l, n);
    var s1 := SaverTakes(l, s, n, x);
    var s2 := OneSave(l, s1, 0, y);
    var s3 := Next(l, s2, writes[0]);
    var s4 := Next(l, s3, writes[1]);
    assert s4.shared.pushed == [x, y] && s4.shared.file == [[y], [x]];
    hide Next;
    assert Run(l, s4, []) == s4;
    RunStep(l, s3, writes[1], []);
    RunStep(l, s2, writes[0], [writes[1]]);
    assert writes == [writes[0]] + [writes[1]] && [writes[1]] == [writes[1]] + [];
    RunJoin(l, s, first, second + writes);
    RunJoin(l, s1, second, writes);
    assert Run(l, s, first + (second + writes)) == s4;
  }

  // One thread puts a record into the empty list and the saver takes the list.
  lemma SaverTakes(l: Limits, s: State, n: nat, x: Record) returns (s': State)
    requires l.Valid() && n > 0 && |s.threads| == n + 1 && s.threads[0].Idle? && s.threads[n].Idle?
    requires s.shared.list == []
    ensures s' == Run(l, s, [CheckSize(0, x), PushRecord(0), Tick, CheckEmpty(n), TakeList(n)])
    ensures s'.threads == s.threads[n := Writing(None, [x], |s.shared.drained|)]
    ensures s'.shared == Drained(Pushed(s.shared, x)).(timeout := s'.shared.timeout)
  {
    var steps := [CheckSize(0, x), PushRecord(0), Tick, CheckEmpty(n), TakeList(n)];
    var s1 := Next(l, s, steps[0]);
    var s2 := Next(l, s1, steps[1]);
    var s3 := Next(l, s2, steps[2]);
    var s4 := Next(l, s3, steps[3]);
    s' := Next(l, s4, steps[4]);
    assert s2.threads == s.threads && s2.shared.list == [x];
    assert s3.threads == s.threads[n := Saving(None)] && s4.threads == s.threads[n := Draining(None)];
    RunFive(l, s, steps, s1, s2, s3, s4, s');
  }

  lemma RunFive(l: Limits, s: State, steps: seq<Step>, s1: State, s2: State, s3: State, s4: State, s5: State)
    requires l.Valid() && |s.threads| > 0 && |steps| == 5
    requires s1 == Next(l, s, steps[0]) && s2 == Next(l, s1, steps[1]) && s3 == Next(l, s2, steps[2])
    requires s4 == Next(l, s3, steps[3]) && s5 == Next(l, s4, steps[4])
    ensures Run(l, s, steps) == s5
  {
    hide Next;
    assert Run(l, s5, []) == s5;
    RunStep(l, s4, steps[4], []);
    RunStep(l, s3, steps[3], [steps[4]]);
    RunStep(l, s2, steps[2], [steps[3], steps[4]]);
    RunStep(l, s1, steps[1], [steps[2], steps[3], steps[4]]);
    RunStep(l, s, steps[0], [steps[1], steps[2], steps[3], steps[4]]);
    assert steps == [steps[0]] + [steps[1], steps[2], steps[3], steps[4]];
    assert [steps[1], steps[2], steps[3], steps[4]] == [steps[1]] + [steps[2], steps[3], steps[4]];
    assert [steps[2], steps[3], steps[4]] == [steps[2]] + [steps[3], steps[4]];
    assert [steps[3], steps[4]] == [steps[3]] + [steps[4]];
    assert [steps[4]] == [steps[4]] + [];
  }

  // An idle thread puts a record into the empty list and takes the list.
  lemma OneSave(l: Limits, s: State, i: nat, x: Record) returns (s': State)
    requires l.Valid() && i + 1 < |s.threads| && s.threads[i].Idle? && s.shared.list == []
    ensures s' == Run(l, s, [CheckSize(i, x), PushRecord(i), Flush(i), CheckEmpty(i), TakeList(i)])
    ensures s' == State(Drained(Pushed(s.shared, x)), s.threads[i := Writing(None, [x], |s.shared.drained|)])
  {
    var steps := [CheckSize(i, x), PushRecord(i), Flush(i), CheckEmpty(i), TakeList(i)];
    var s1 := Next(l, s, steps[0]);
    var s2 := Next(l, s1, steps[1]);
    var s3 := Next(l, s2, steps[2]);
    var s4 := Next(l, s3, steps[3]);
    s' := Next(l, s4, steps[4]);
    assert s1.threads[i] == Armed(x) && s2.threads[i] == Idle && s2.shared.list == [x];
    assert s3.threads[i] == Saving(None) && s4.threads[i] == Draining(None);
    assert s'.threads[i] == Writing(None, [x], |s.shared.drained|);
    assert s'.threads == s.threads[i := Writing(None, [x], |s.shared.drained|)];
    RunFive(l, s, steps, s1, s2, s3, s4, s');
  }

  lemma RunStep(l: Limits, s: State, step: Step, rest: seq<Step>)
    requires l.Valid() && |s.threads| > 0
    ensures Run(l, s, [step] + rest) == Run(l, Next(l, s, step), rest)
  {
    hide Next;
    assert ([step] + rest)[1..] == rest;
  }

  // ---- the delay ----

  // The delay after rounds in which the saver saw these list sizes.
  function TunedTimes(l: Limits, counts: seq<nat>, timeout: nat): nat
    requires l.Valid()
    decreases |counts|
  {
    if counts == [] then timeout else TunedTimes(l, counts[1..], Tuned(l, counts[0], timeout))
  }

  function PowerOfTwo(k: nat): (p: nat)
    ensures p > 0
  {
    if k == 0 then 1 else 2 * PowerOfTwo(k - 1)
  }

  lemma TimesAtLeast(x: nat, y: nat, p: nat)
    requires p > 0
    ensures x <= y ==> x * p <= y * p
    ensures x * p >= x
  {
    if x <= y {
      assert (y - x) * p >= 0;
    }
    assert x * (p - 1) >= 0;
  }

  // k rounds with a short list double the delay k times, up to the maximum.
  lemma {:induction false} DelayRises(l: Limits, counts: seq<nat>, timeout: nat)
    requires l.Valid() && 0 < timeout <= l.maxTimeout
    requires forall i :: 0 <= i < |counts| ==> counts[i] < l.sizePerStep
    ensures TunedTimes(l, counts, timeout) ==
            var full := timeout * PowerOfTwo(|counts|); if full <= l.maxTimeout then full else l.maxTimeout
    decreases |counts|
  {
    if counts != [] {
      var p := PowerOfTwo(|counts| - 1);
      var t := Tuned(l, counts[0], timeout);
      DelayRises(l, counts[1..], t);
      Doubling(timeout, p);
      TimesAtLeast(t, 2 * timeout, p);
      TimesAtLeast(2 * timeout, 0, p);
    }
  }

  lemma Doubling(t: nat, p: nat)
    ensures t * (2 * p) == (2 * t) * p
  {
  }

  lemma HalfOf(t: nat, x: nat, r: nat)
    requires t == 2 * x + r
    ensures t / 2 == x + r / 2
  {
  }

  lemma TwiceTimes(q: nat, p: nat)
    ensures q * (2 * p) == 2 * (q * p)
  {
  }

  function Quotient(x: nat, m: nat): nat
    requires m > 0
  {
    x / m
  }

  lemma QuotientAndRest(x: nat, m: nat) returns (r: nat)
    requires m > 0
    ensures x == Quotient(x, m) * m + r && r < m
  {
    r := x % m;
  }

  lemma HalfDivided(t: nat, h: nat, p: nat, m: nat)
    requires p > 0 && m == 2 * p && h == t / 2
    ensures Quotient(h, p) == Quotient(t, m)
  {
    hide Quotient;
    var r := QuotientAndRest(t, m);
    HalfQuotient(t, h, p, m, Quotient(t, m), r);
  }

  lemma HalfQuotient(t: nat, h: nat, p: nat, m: nat, q: nat, r: nat)
    requires p > 0 && m == 2 * p && t == q * m + r && r < m && h == t / 2
    ensures Quotient(h, p) == q
  {
    TwiceTimes(q, p);
    HalfOf(t, q * p, r);
    QuotientUnique(h, p, q, r / 2);
  }

  // k rounds with a long list halve the delay k times, down to one second.
  lemma {:induction false} DelayFalls(l: Limits, counts: seq<nat>, timeout: nat)
    requires l.Valid() && l.minTimeout == 1 && 0 < timeout <= l.maxTimeout
    requires forall i :: 0 <= i < |counts| ==> counts[i] >= l.sizePerStep
    ensures TunedTimes(l, counts, timeout) ==
            var less := Quotient(timeout, PowerOfTwo(|counts|)); if less == 0 then 1 else less
    decreases |counts|
  {
    if counts != [] {
      var p := PowerOfTwo(|counts| - 1);
      var t := Tuned(l, counts[0], timeout);
      DelayFalls(l, counts[1..], t);
      HalfDivided(timeout, timeout / 2, p, 2 * p);
      if timeout / 2 == 0 {
        QuotientUnique(0, p, 0, 0);
        if p > 1 {
          QuotientUnique(1, p, 0, 1);
        }
      }
    }
  }
}
