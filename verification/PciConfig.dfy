/** The PCI configuration space shared by the two channel drivers: masked writes under a
    lock, and what any interleaving of them leaves behind. */
module PciConfig {
  import opened Wrappers

  const CONFIG_SIZE := 256
  type Config = c: seq<bv8> | |c| == CONFIG_SIZE witness seq(CONFIG_SIZE, _ => 0)

  /** One call of `pciConfigWrite8` or `pciConfigWrite16`: one or two bytes of data and
      mask, the low byte first. */
  datatype Write = Write(offset: nat, data: seq<bv8>, mask: seq<bv8>) {
    ghost predicate Valid() {
      1 <= |data| == |mask| <= 2 && offset + |data| <= CONFIG_SIZE
    }
  }

  function Masked(was: bv8, data: bv8, mask: bv8): bv8 {
    (was & !mask) | (mask & data)
  }

  lemma MaskedBits(was: bv8, data: bv8, mask: bv8, m: bv8)
    ensures mask & m == m ==> Masked(was, data, mask) & m == data & m
    ensures mask & m == 0 ==> Masked(was, data, mask) & m == was & m
  {
  }

  function Load(c: Config, w: Write): seq<bv8>
    requires w.Valid()
  {
    c[w.offset..w.offset + |w.data|]
  }

  function Merge(u: seq<bv8>, w: Write): (r: seq<bv8>)
    requires w.Valid() && |u| == |w.data|
    ensures |r| == |u|
  {
    seq(|u|, i requires 0 <= i < |u| => Masked(u[i], w.data[i], w.mask[i]))
  }

  function Store(c: Config, w: Write, u: seq<bv8>): Config
    requires w.Valid() && |u| == |w.data|
  {
    c[..w.offset] + u + c[w.offset + |u|..]
  }

  /** The masked write as one step. */
  function Apply(c: Config, w: Write): Config
    requires w.Valid()
  {
    Store(c, w, Merge(Load(c, w), w))
  }

  ghost predicate AllValid(ws: seq<Write>) {
    forall i :: 0 <= i < |ws| ==> ws[i].Valid()
  }

  function ApplyAll(c: Config, ws: seq<Write>): Config
    requires AllValid(ws)
    decreases |ws|
  {
    if ws == [] then c else ApplyAll(Apply(c, ws[0]), ws[1..])
  }

  lemma {:induction false} ApplyAllConcat(c: Config, a: seq<Write>, b: seq<Write>)
    requires AllValid(a) && AllValid(b)
    ensures AllValid(a + b) && ApplyAll(c, a + b) == ApplyAll(ApplyAll(c, a), b)
    decreases |a|
  {
    if a == [] {
      assert a + b == b;
    } else {
      assert (a + b)[1..] == a[1..] + b;
      ApplyAllConcat(Apply(c, a[0]), a[1..], b);
    }
  }

  // ----- single bits -----

  /** A group of bits `m` of the byte at `at`. */
  datatype Bits = Bits(at: nat, m: bv8)

  /** The write sets all of the bits. */
  predicate Sets(w: Write, b: Bits)
    requires w.Valid()
  {
    w.offset <= b.at < w.offset + |w.mask| && w.mask[b.at - w.offset] & b.m == b.m
  }

  /** The write leaves all of the bits. */
  predicate Leaves(w: Write, b: Bits)
    requires w.Valid()
  {
    w.offset <= b.at < w.offset + |w.mask| ==> w.mask[b.at - w.offset] & b.m == 0
  }

  ghost predicate AllLeave(ws: seq<Write>, b: Bits)
    requires AllValid(ws)
  {
    forall i :: 0 <= i < |ws| ==> Leaves(ws[i], b)
  }

  /** No write takes only a part of the bits. */
  ghost predicate Whole(ws: seq<Write>, b: Bits)
    requires AllValid(ws)
  {
    forall i :: 0 <= i < |ws| ==> Sets(ws[i], b) || Leaves(ws[i], b)
  }

  /** What the bits are after one write. */
  function Set(w: Write, b: Bits, was: bv8): bv8
    requires w.Valid()
  {
    if Sets(w, b) then w.data[b.at - w.offset] & b.m else was
  }

  lemma LeavesMeansUnset(w: Write, b: Bits, was: bv8)
    requires w.Valid() && b.m != 0 && Leaves(w, b)
    ensures Set(w, b, was) == was
  {
  }

  /** What the last write that sets the bits sets them to, or what they were. */
  function Last(ws: seq<Write>, b: Bits, was: bv8): bv8
    requires AllValid(ws)
  {
    if ws == [] then was
    else Last(ws[1..], b, Set(ws[0], b, was))
  }

  lemma {:induction false} LeavesMeansLast(ws: seq<Write>, b: Bits, was: bv8)
    requires AllValid(ws) && AllLeave(ws, b) && b.m != 0
    ensures Last(ws, b, was) == was
  {
    if ws != [] {
      LeavesMeansUnset(ws[0], b, was);
      LeavesMeansLast(ws[1..], b, was);
    }
  }

  lemma ApplyBits(c: Config, w: Write, b: Bits)
    requires w.Valid() && b.at < CONFIG_SIZE && b.m != 0 && (Sets(w, b) || Leaves(w, b))
    ensures Apply(c, w)[b.at] & b.m == Set(w, b, c[b.at] & b.m)
  {
    if w.offset <= b.at < w.offset + |w.mask| {
      var i := b.at - w.offset;
      assert Apply(c, w)[b.at] == Masked(c[b.at], w.data[i], w.mask[i]);
      MaskedBits(c[b.at], w.data[i], w.mask[i], b.m);
    }
  }

  lemma {:induction false} ApplyAllBits(c: Config, ws: seq<Write>, b: Bits)
    requires AllValid(ws) && Whole(ws, b) && b.at < CONFIG_SIZE && b.m != 0
    ensures ApplyAll(c, ws)[b.at] & b.m == Last(ws, b, c[b.at] & b.m)
    decreases |ws|
  {
    if ws != [] {
      ApplyBits(c, ws[0], b);
      ApplyAllBits(Apply(c, ws[0]), ws[1..], b);
    }
  }

  lemma {:induction false} LastConcat(a: seq<Write>, w: seq<Write>, b: Bits, was: bv8)
    requires AllValid(a) && AllValid(w)
    ensures AllValid(a + w) && Last(a + w, b, was) == Last(w, b, Last(a, b, was))
    decreases |a|
  {
    if a == [] {
      assert a + w == w;
    } else {
      assert (a + w)[1..] == a[1..] + w;
      LastConcat(a[1..], w, b, Set(a[0], b, was));
    }
  }

  // ----- the two drivers, step by step -----

  /** Where a driver stands in a masked write: outside, holding the lock, with the bytes
      read in hand, or with the result written and the lock still held. */
  datatype Place = Outside | Locked | Loaded(u: seq<bv8>) | Stored

  datatype Driver = Driver(todo: seq<Write>, place: Place)

  /** `log` lists the writes in the order of their store, with the driver of each. */
  datatype System = System(config: Config, holder: Option<nat>, drivers: seq<Driver>, log: seq<(nat, Write)>)

  function Start(config: Config, programs: seq<seq<Write>>): System {
    System(config, None, seq(|programs|, i requires 0 <= i < |programs| => Driver(programs[i], Outside)), [])
  }

  ghost predicate Wellformed(s: System) {
    forall t :: 0 <= t < |s.drivers| ==>
      && AllValid(s.drivers[t].todo)
      && (!s.drivers[t].place.Outside? ==> s.drivers[t].todo != [])
      && (s.drivers[t].place.Loaded? ==> |s.drivers[t].place.u| == |s.drivers[t].todo[0].data|)
  }

  /** One step of driver `t`.  A driver that waits for the lock, or is done, does not
      move. */
  function Step(s: System, t: nat): System
    requires t < |s.drivers| && Wellformed(s)
  {
    var d := s.drivers[t];
    match d.place
    case Outside =>
      if d.todo == [] || s.holder.Some? then s
      else s.(holder := Some(t), drivers := s.drivers[t := d.(place := Locked)])
    case Locked =>
      s.(drivers := s.drivers[t := d.(place := Loaded(Load(s.config, d.todo[0])))])
    case Loaded(u) =>
      s.(config := Store(s.config, d.todo[0], Merge(u, d.todo[0])),
         drivers := s.drivers[t := d.(place := Stored)],
         log := s.log + [(t, d.todo[0])])
    case Stored =>
      s.(holder := None, drivers := s.drivers[t := Driver(d.todo[1..], Outside)])
  }

  function Writes(log: seq<(nat, Write)>): seq<Write> {
    if log == [] then [] else [log[0].1] + Writes(log[1..])
  }

  /** The writes of driver `t` in the log. */
  function By(log: seq<(nat, Write)>, t: nat): seq<Write> {
    if log == [] then []
    else (if log[0].0 == t then [log[0].1] else []) + By(log[1..], t)
  }

  lemma {:induction false} LogGrows(log: seq<(nat, Write)>, e: (nat, Write), t: nat)
    ensures Writes(log + [e]) == Writes(log) + [e.1]
    ensures By(log + [e], t) == By(log, t) + if e.0 == t then [e.1] else []
  {
    if log == [] {
      assert log + [e] == [e] && [e][1..] == [];
    } else {
      assert (log + [e])[1..] == log[1..] + [e];
      LogGrows(log[1..], e, t);
    }
  }

  /** What is left of a driver's program once its stored write is taken off. */
  function Left(d: Driver): seq<Write>
    requires d.place.Stored? ==> d.todo != []
  {
    if d.place.Stored? then d.todo[1..] else d.todo
  }

  /** What every interleaving keeps: at most the holder is inside; the bytes it has read
      are still those in the registers; the registers are the initial ones after the
      writes of the log, in its order; and each driver's part of the log is the part of
      its program that it has done. */
  ghost predicate Inv(s: System, config: Config, programs: seq<seq<Write>>) {
    && Wellformed(s) && |s.drivers| == |programs|
    && (forall t :: 0 <= t < |s.drivers| ==> (s.drivers[t].place.Outside? <==> s.holder != Some(t)))
    && (s.holder.Some? ==> s.holder.value < |s.drivers|)
    && (forall t :: 0 <= t < |s.drivers| && s.drivers[t].place.Loaded? ==>
          s.drivers[t].place.u == Load(s.config, s.drivers[t].todo[0]))
    && AllValid(Writes(s.log)) && s.config == ApplyAll(config, Writes(s.log))
    && (forall i :: 0 <= i < |s.log| ==> s.log[i].0 < |programs|)
    && (forall t :: 0 <= t < |programs| ==> By(s.log, t) + Left(s.drivers[t]) == programs[t])
  }

  lemma StartInv(config: Config, programs: seq<seq<Write>>)
    requires forall t :: 0 <= t < |programs| ==> AllValid(programs[t])
    ensures Inv(Start(config, programs), config, programs)
  {
    assert forall t :: 0 <= t < |programs| ==> By([], t) + programs[t] == programs[t];
  }

  lemma StoreInv(s: System, t: nat, config: Config, programs: seq<seq<Write>>)
    requires t < |s.drivers| && Inv(s, config, programs) && s.drivers[t].place.Loaded?
    ensures Inv(Step(s, t), config, programs)
  {
    var d, s' := s.drivers[t], Step(s, t);
    var w := d.todo[0];
    LogGrows(s.log, (t, w), t);
    ApplyAllConcat(config, Writes(s.log), [w]);
    assert ApplyAll(s.config, [w]) == Apply(s.config, w);
    forall i | 0 <= i < |programs|
      ensures By(s'.log, i) + Left(s'.drivers[i]) == programs[i]
    {
      LogGrows(s.log, (t, w), i);
      if i == t {
        assert By(s.log, t) + [w] + d.todo[1..] == By(s.log, t) + d.todo;
      } else {
        assert By(s'.log, i) == By(s.log, i);
      }
    }
  }

  lemma StepInv(s: System, t: nat, config: Config, programs: seq<seq<Write>>)
    requires t < |s.drivers| && Inv(s, config, programs)
    ensures Inv(Step(s, t), config, programs)
  {
    var d := s.drivers[t];
    if d.place.Loaded? {
      StoreInv(s, t, config, programs);
    } else if d.place.Stored? {
      assert By(s.log, t) + Left(d) == programs[t];
    }
  }

  /** A run under any schedule. */
  function Run(s: System, schedule: seq<nat>, config: Config, programs: seq<seq<Write>>): (r: System)
    requires Inv(s, config, programs) && forall i :: 0 <= i < |schedule| ==> schedule[i] < |programs|
    ensures Inv(r, config, programs)
    decreases |schedule|
  {
    if schedule == [] then s
    else
      StepInv(s, schedule[0], config, programs);
      Run(Step(s, schedule[0]), schedule[1..], config, programs)
  }

  ghost predicate Finished(s: System) {
    forall t :: 0 <= t < |s.drivers| ==> s.drivers[t] == Driver([], Outside)
  }

  /** The drivers' programs, run under `schedule` from registers `config`. */
  function Outcome(config: Config, programs: seq<seq<Write>>, schedule: seq<nat>): System
    requires forall t :: 0 <= t < |programs| ==> AllValid(programs[t])
    requires forall i :: 0 <= i < |schedule| ==> schedule[i] < |programs|
  {
    StartInv(config, programs);
    Run(Start(config, programs), schedule, config, programs)
  }

  /** However the drivers are interleaved, once they are done the registers are what some
      order of all their writes, one after the other, makes of them: none is lost, none is
      done twice, and each driver's writes are in the order of its program. */
  lemma Serializable(config: Config, programs: seq<seq<Write>>, schedule: seq<nat>)
    requires forall t :: 0 <= t < |programs| ==> AllValid(programs[t])
    requires forall i :: 0 <= i < |schedule| ==> schedule[i] < |programs|
    requires Finished(Outcome(config, programs, schedule))
    ensures var s := Outcome(config, programs, schedule);
            && AllValid(Writes(s.log)) && s.config == ApplyAll(config, Writes(s.log))
            && forall t :: 0 <= t < |programs| ==> By(s.log, t) == programs[t]
  {
    var s := Outcome(config, programs, schedule);
    forall t | 0 <= t < |programs|
      ensures By(s.log, t) == programs[t]
    {
      assert By(s.log, t) + [] == By(s.log, t);
    }
  }

  /** No run gets stuck: while a driver has something to do, some driver can move. */
  lemma NoDeadlock(s: System, config: Config, programs: seq<seq<Write>>) returns (t: nat)
    requires Inv(s, config, programs) && !Finished(s)
    ensures t < |s.drivers| && Step(s, t) != s
  {
    if s.holder.Some? {
      t := s.holder.value;
      if s.drivers[t].place.Locked? || s.drivers[t].place.Loaded? {
        assert Step(s, t).drivers[t].place != s.drivers[t].place;
      }
    } else {
      t :| 0 <= t < |s.drivers| && s.drivers[t] != Driver([], Outside);
    }
  }

  // ----- every run can be finished -----

  /** The steps that a driver still has to make. */
  function Steps(d: Driver): int {
    4 * |d.todo| - match d.place
                   case Outside => 0
                   case Locked => 1
                   case Loaded(_) => 2
                   case Stored => 3
  }

  function AllSteps(drivers: seq<Driver>): int {
    if drivers == [] then 0 else Steps(drivers[0]) + AllSteps(drivers[1..])
  }

  lemma {:induction false} StepsLeft(drivers: seq<Driver>)
    requires forall t :: 0 <= t < |drivers| ==> (!drivers[t].place.Outside? ==> drivers[t].todo != [])
    ensures AllSteps(drivers) >= 0
  {
    if drivers != [] {
      StepsLeft(drivers[1..]);
    }
  }

  lemma {:induction false} OneMoves(drivers: seq<Driver>, t: nat, d: Driver)
    requires t < |drivers|
    ensures AllSteps(drivers[t := d]) == AllSteps(drivers) - Steps(drivers[t]) + Steps(d)
  {
    if t == 0 {
      assert drivers[0 := d][1..] == drivers[1..];
    } else {
      assert drivers[t := d][1..] == drivers[1..][t - 1 := d];
      OneMoves(drivers[1..], t - 1, d);
    }
  }

  lemma StepIsProgress(s: System, t: nat)
    requires t < |s.drivers| && Wellformed(s) && Step(s, t) != s
    ensures AllSteps(Step(s, t).drivers) == AllSteps(s.drivers) - 1
  {
    OneMoves(s.drivers, t, Step(s, t).drivers[t]);
    assert Step(s, t).drivers == s.drivers[t := Step(s, t).drivers[t]];
  }

  /** From every state that a run can reach, some schedule finishes all programs. */
  lemma {:induction false} Finishes(s: System, config: Config, programs: seq<seq<Write>>) returns (schedule: seq<nat>)
    requires Inv(s, config, programs)
    ensures forall i :: 0 <= i < |schedule| ==> schedule[i] < |programs|
    ensures Finished(Run(s, schedule, config, programs))
    decreases AllSteps(s.drivers)
  {
    schedule := [];
    if !Finished(s) {
      var t := NoDeadlock(s, config, programs);
      StepsLeft(s.drivers);
      StepIsProgress(s, t);
      StepInv(s, t, config, programs);
      StepsLeft(Step(s, t).drivers);
      hide Inv, Step, Finished;
      var rest := Finishes(Step(s, t), config, programs);
      schedule := [t] + rest;
      assert schedule[1..] == rest;
    }
  }

  /** Every entry of the log but those of driver `t` leaves the bits. */
  ghost predicate OwnedIn(log: seq<(nat, Write)>, t: nat, b: Bits) {
    forall i :: 0 <= i < |log| ==>
      log[i].1.Valid() && (Leaves(log[i].1, b) || (log[i].0 == t && Sets(log[i].1, b)))
  }

  lemma {:induction false} EntryIsBy(log: seq<(nat, Write)>, i: nat)
    requires i < |log|
    ensures log[i].1 in By(log, log[i].0)
  {
    if i > 0 {
      EntryIsBy(log[1..], i - 1);
    }
  }

  lemma {:induction false} OwnedWhole(log: seq<(nat, Write)>, t: nat, b: Bits)
    requires OwnedIn(log, t, b)
    ensures AllValid(Writes(log)) && Whole(Writes(log), b)
  {
    if log != [] {
      assert log[0].1.Valid();
      OwnedWhole(log[1..], t, b);
    }
  }

  lemma FromPrograms(log: seq<(nat, Write)>, programs: seq<seq<Write>>, t: nat, b: Bits)
    requires t < |programs| && forall i :: 0 <= i < |programs| ==> AllValid(programs[i])
    requires forall i :: 0 <= i < |programs| ==> By(log, i) == programs[i]
    requires forall i :: 0 <= i < |log| ==> log[i].0 < |programs|
    requires Whole(programs[t], b)
    requires forall i :: 0 <= i < |programs| && i != t ==> AllLeave(programs[i], b)
    ensures OwnedIn(log, t, b) && AllValid(Writes(log)) && Whole(Writes(log), b)
  {
    forall i | 0 <= i < |log|
      ensures log[i].1.Valid() && (Leaves(log[i].1, b) || (log[i].0 == t && Sets(log[i].1, b)))
    {
      EntryIsBy(log, i);
    }
    OwnedWhole(log, t, b);
  }

  lemma {:induction false} OwnLast(log: seq<(nat, Write)>, t: nat, b: Bits, was: bv8)
    requires OwnedIn(log, t, b) && b.m != 0
    ensures AllValid(Writes(log)) && AllValid(By(log, t))
    ensures Last(Writes(log), b, was) == Last(By(log, t), b, was)
    decreases |log|
  {
    if log != [] {
      var w := log[0].1;
      assert w.Valid();
      OwnLast(log[1..], t, b, Set(w, b, was));
      LastConcat([w], Writes(log[1..]), b, was);
      if log[0].0 == t {
        LastConcat([w], By(log[1..], t), b, was);
      } else {
        LeavesMeansUnset(w, b, was);
        assert By(log, t) == By(log[1..], t);
      }
    }
  }

  /** If only driver `t` writes certain bits, then what it wrote last is what they hold,
      under every schedule; bits that nobody writes hold what they did. */
  lemma OwnedBits(config: Config, programs: seq<seq<Write>>, schedule: seq<nat>, t: nat, b: Bits)
    requires forall i :: 0 <= i < |programs| ==> AllValid(programs[i])
    requires forall i :: 0 <= i < |schedule| ==> schedule[i] < |programs|
    requires Finished(Outcome(config, programs, schedule))
    requires t < |programs| && b.at < CONFIG_SIZE && b.m != 0
    requires Whole(programs[t], b)
    requires forall i :: 0 <= i < |programs| && i != t ==> AllLeave(programs[i], b)
    ensures Outcome(config, programs, schedule).config[b.at] & b.m == Last(programs[t], b, config[b.at] & b.m)
  {
    var s := Outcome(config, programs, schedule);
    Serializable(config, programs, schedule);
    FromPrograms(s.log, programs, t, b);
    ApplyAllBits(config, Writes(s.log), b);
    OwnLast(s.log, t, b, config[b.at] & b.m);
  }
}
