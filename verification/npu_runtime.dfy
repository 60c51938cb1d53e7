/**
 `HarmonyNpuCompute` (harmony_npu.cpp): a graph is cut into packages that run on the NPU or the CPU,
 with a bounded cache of plans that are validated before their results are used.
 */
module NpuRuntime {

  import opened NpuGraph
  import opened NpuPackage

  const CACHE_LIMIT: nat := 256 * 1024 * 1024
  const PLAN_LIMIT: nat := 128
  const REJECTED_LIMIT: nat := 1024

  datatype Status = Success | Aborted | Failed

  datatype Plan = Plan(bytes: nat, validated: bool)

  // ---------- the size of the cache ----------

  ghost function Total(plans: map<Key, Plan>): nat {
    if plans == map[] then 0
    else
      var k :| k in plans;
      plans[k].bytes + Total(plans - {k})
  }

  lemma {:induction false} TotalRemove(plans: map<Key, Plan>, k: Key)
    requires k in plans
    ensures Total(plans) == plans[k].bytes + Total(plans - {k})
    decreases |plans|
  {
    var first :| first in plans && Total(plans) == plans[first].bytes + Total(plans - {first});
    if first != k {
      TotalRemove(plans - {first}, k);
      TotalRemove(plans - {k}, first);
      assert (plans - {first}) - {k} == (plans - {k}) - {first};
    }
  }

  lemma TotalAdd(plans: map<Key, Plan>, k: Key, plan: Plan)
    requires k !in plans
    ensures Total(plans[k := plan]) == Total(plans) + plan.bytes
  {
    TotalRemove(plans[k := plan], k);
    assert plans[k := plan] - {k} == plans;
  }

  lemma TotalReplace(plans: map<Key, Plan>, k: Key, plan: Plan)
    requires k in plans && plan.bytes == plans[k].bytes
    ensures Total(plans[k := plan]) == Total(plans)
  {
    TotalRemove(plans, k);
    TotalRemove(plans[k := plan], k);
    assert plans[k := plan] - {k} == plans - {k};
  }

  // ---------- everything outside ----------

  // The NPU, the CPU backend, the abort callback and the other callers.  What they do is read from
  // scripts, so that a statement about a run holds whatever they do.
  class World {
    const script: nat -> bool
    const numbers: nat -> nat
    const garbage: nat -> Value
    const durations: nat -> real      // in milliseconds
    const eval: (Desc, seq<Value>) -> Value
    const weightAt: nat -> Value
    const exact: Key -> bool          // the keys for which the NPU computes what the CPU does
    var at: nat
    ghost var faults: nat             // how often a call outside failed or the callback asked for an end

    constructor (script: nat -> bool, numbers: nat -> nat, garbage: nat -> Value, durations: nat -> real,
                 eval: (Desc, seq<Value>) -> Value, weightAt: nat -> Value, exact: Key -> bool)
    {
      this.script, this.numbers, this.garbage, this.durations := script, numbers, garbage, durations;
      this.eval, this.weightAt, this.exact := eval, weightAt, exact;
      at, faults := 0, 0;
    }

    method Choose() returns (b: bool)
      modifies this`at
    {
      b := script(at);
      at := at + 1;
    }

    // Whether a call fails or the abort callback says yes.
    method Fails() returns (b: bool)
      modifies this
      ensures faults == old(faults) + if b then 1 else 0
    {
      b := Choose();
      if b { faults := faults + 1; }
    }

    method Pick(bound: nat) returns (k: nat)
      requires bound > 0
      modifies this`at
      ensures k < bound
    {
      k := numbers(at) % bound;
      at := at + 1;
    }

    // The time between two readings of the clock.
    method Elapsed() returns (ms: real)
      modifies this`at
    {
      ms := durations(at);
      at := at + 1;
    }

    // The executor: it fails, or fills the output buffers of the plan.
    method RunSync(key: Key, inputs: seq<Value>) returns (r: Option<seq<Value>>)
      modifies this
      ensures faults == old(faults) + if r.None? then 1 else 0
      ensures r.Some? ==> |r.value| == |key.outputs|
      ensures r.Some? && exact(key) ==> forall i :: 0 <= i < |key.outputs| && key.outputs[i] < |key.nodes| ==>
        r.value[i] == PlanValues(eval, weightAt, key, inputs)[key.outputs[i]]
    {
      var fails := Fails();
      if fails {
        return None;
      }
      if exact(key) {
        var vals := PlanValues(eval, weightAt, key, inputs);
        return Some(seq(|key.outputs|, i requires 0 <= i < |key.outputs| =>
          if key.outputs[i] < |vals| then vals[key.outputs[i]] else []));
      }
      at := at + 1;
      var start := at;
      return Some(seq(|key.outputs|, i requires 0 <= i < |key.outputs| => garbage(start + i)));
    }

    // The comparison of the results with those of the CPU.  That a plan passes it means that the NPU
    // computes for its key what the CPU does.
    method Close(key: Key) returns (close: bool)
      modifies this`at
      ensures close ==> exact(key)
    {
      var b := Choose();
      close := b && exact(key);
    }
  }

  // The graph fits the memory, and weights are constant.
  ghost predicate GraphOk(w: World, g: Graph, m: seq<Value>) {
    && Topological(g, |m|)
    && (forall d, args :: g.eval(d, args) == w.eval(d, args))
    && (forall x :: 0 <= x < |m| && g.tensor(x).weight ==> x !in g.nodes && m[x] == w.weightAt(g.tensor(x).data))
  }

  // The memory differs only in nodes from a to b.
  ghost predicate OnlyNodes(g: Graph, m: seq<Value>, m': seq<Value>, a: nat, b: nat) {
    && |m'| == |m| && a <= b <= |g.nodes|
    && forall x :: 0 <= x < |m| && (forall i :: a <= i < b ==> g.nodes[i] != x) ==> m'[x] == m[x]
  }

  lemma GraphOkKept(w: World, g: Graph, m: seq<Value>, m': seq<Value>, a: nat, b: nat)
    requires GraphOk(w, g, m) && OnlyNodes(g, m, m', a, b)
    ensures GraphOk(w, g, m')
  {
  }

  // ---------- the work of one caller ----------

  datatype How = ByCpu | ByNpu

  // A range of nodes whose values were computed or copied.
  datatype Commit = Commit(lo: nat, hi: nat, how: How)

  // A package that was tried on the NPU: the key it was looked up by, whether its plan had been validated, whether
  // its nodes were executed, and whether something outside failed or asked for an end meanwhile.
  datatype Try = Try(lo: nat, hi: nat, key: Option<Key>, trusted: bool, executed: bool, fault: bool)

  // A caller's graph and memory.  ran records every range for which the CPU backend returned success or the
  // results of the NPU were copied completely, tried every package tried on the NPU, and ends every failure of the CPU
  // backend and every time the abort callback asked for an end, in order.
  class Job {
    const g: Graph
    const mem: array<Value>
    ghost var ran: seq<Commit>
    ghost var tried: seq<Try>
    ghost var ends: seq<Status>

    constructor (g: Graph, mem: array<Value>)
      ensures this.g == g && this.mem == mem && ran == [] && tried == [] && ends == []
    {
      this.g, this.mem := g, mem;
      ran, tried, ends := [], [], [];
    }

    // The abort callback.
    method AbortAsked(w: World) returns (b: bool)
      modifies w, this`ends
      ensures w.faults == old(w.faults) + if b then 1 else 0
      ensures ends == if b then old(ends) + [Aborted] else old(ends)
    {
      b := w.Fails();
      if b { ends := ends + [Aborted]; }
    }
  }

  // The record of endings behind those before, if a part of the work ended with this.
  function Ends(before: seq<Status>, rc: Status): seq<Status> {
    if rc == Success then before else before + [rc]
  }

  function StopEnds(before: seq<Status>, stop: Option<Status>): seq<Status> {
    if stop.Some? then before + [stop.value] else before
  }

  function OutcomeEnds(before: seq<Status>, outcome: Outcome): seq<Status> {
    if outcome.Stopped? then before + [outcome.rc] else before
  }

  function Commits(a: nat, b: nat, how: How): seq<Commit> {
    if a < b then [Commit(a, b, how)] else []
  }

  // The CPU backend computes a range of nodes, or fails with part of it done.
  method Cpu(w: World, job: Job, a: nat, b: nat) returns (rc: Status)
    requires Topological(job.g, job.mem.Length) && a <= b <= |job.g.nodes|
    modifies w, job`ran, job`ends, job.mem
    ensures rc == Success ==> job.mem[..] == Run(job.g, old(job.mem[..]), a, b)
    ensures w.faults == old(w.faults) + if rc == Success then 0 else 1
    ensures job.ran == old(job.ran) + if rc == Success then Commits(a, b, ByCpu) else []
    ensures job.ends == Ends(old(job.ends), rc)
    ensures OnlyNodes(job.g, old(job.mem[..]), job.mem[..], a, b)
  {
    var g, mem := job.g, job.mem;
    var fails := w.Fails();
    var stop := b;
    if fails {
      var k := w.Pick(b - a + 1);
      stop := a + k;
    }
    for i := a to stop
      invariant mem[..] == Run(g, old(mem[..]), a, i) && OnlyNodes(g, old(mem[..]), mem[..], a, i)
      invariant job.ran == old(job.ran) && job.ends == old(job.ends) && w.faults == old(w.faults) + if fails then 1 else 0
    {
      var srcs := At(g, i).srcs;
      mem[g.nodes[i]] := g.eval(At(g, i).desc, Operands(mem[..], srcs));
    }
    if !fails {
      job.ran := job.ran + Commits(a, b, ByCpu);
    }
    rc := if fails then Failed else Success;
    job.ends := Ends(job.ends, rc);
  }

  // Is some node of the range a supported, large matrix product?
  predicate Worth(g: Graph, a: nat, b: nat)
    requires a <= b <= |g.nodes|
  {
    exists i :: a <= i < b && At(g, i).large && At(g, i).supported
  }

  method WorthTrying(g: Graph, a: nat, b: nat) returns (worth: bool)
    requires a <= b <= |g.nodes|
    ensures worth <==> Worth(g, a, b)
  {
    for i := a to b
      invariant !Worth(g, a, i)
    {
      if At(g, i).large && At(g, i).supported {
        return true;
      }
    }
    return false;
  }

  // ---------- the runtime ----------

  datatype Outcome = Done | Threw | Stopped(rc: Status)

  // The same operators give the same values.
  lemma {:induction false} EvalSame(f: (Desc, seq<Value>) -> Value, h: (Desc, seq<Value>) -> Value,
                                    nodes: seq<NodeKey>, ext: seq<Value>)
    requires forall d, args :: f(d, args) == h(d, args)
    ensures EvalNodes(f, nodes, ext) == EvalNodes(h, nodes, ext)
    decreases |nodes|
  {
    if nodes != [] {
      EvalSame(f, h, nodes[..|nodes| - 1], ext);
    }
  }

  // The results of a plan with an exact key are the CPU's values of the output nodes.
  lemma ResultsAreRight(w: World, g: Graph, m: seq<Value>, begin: nat, end: nat, p: Package, ext: seq<Id>,
                        results: seq<Value>)
    requires GraphOk(w, g, m) && begin <= end <= |g.nodes| && Describes(g, |m|, begin, end, p, ext)
    requires |results| == |p.outputs| && forall k :: 0 <= k < |p.inputs| ==> p.inputs[k] < |m|
    requires forall i :: 0 <= i < |p.key.outputs| && p.key.outputs[i] < |p.key.nodes| ==>
      results[i] == PlanValues(w.eval, w.weightAt, p.key, Operands(m, p.inputs))[p.key.outputs[i]]
    ensures forall i :: 0 <= i < |p.outputs| && begin + p.outputs[i] < end ==>
      results[i] == Run(g, m, begin, end)[g.nodes[begin + p.outputs[i]]]
  {
    WeightsInPlace(w, g, m, begin, ext);
    KeyDeterminesValues(g, m, begin, end, p, ext, w.weightAt);
    PlanSame(g.eval, w.eval, w.weightAt, p.key, Operands(m, p.inputs));
    var vals := PlanValues(w.eval, w.weightAt, p.key, Operands(m, p.inputs));
    OutputsMatch(g, begin, end, p.outputs, vals, results, Run(g, m, begin, end));
  }

  lemma OutputsMatch(g: Graph, begin: nat, end: nat, outputs: seq<nat>, vals: seq<Value>, results: seq<Value>,
                     ref: seq<Value>)
    requires begin <= end <= |g.nodes| && |vals| == end - begin && |results| == |outputs|
    requires forall i :: 0 <= i < |g.nodes| ==> g.nodes[i] < |ref|
    requires forall i :: 0 <= i < |outputs| && outputs[i] < |vals| ==> results[i] == vals[outputs[i]]
    requires forall k :: 0 <= k < end - begin ==> vals[k] == ref[g.nodes[begin + k]]
    ensures forall i :: 0 <= i < |outputs| && begin + outputs[i] < end ==> results[i] == ref[g.nodes[begin + outputs[i]]]
  {
  }

  lemma WeightsInPlace(w: World, g: Graph, m: seq<Value>, begin: nat, ext: seq<Id>)
    requires GraphOk(w, g, m) && ExternalsOk(g, begin, ext, |m|)
    ensures forall k :: 0 <= k < |ext| ==> ext[k] < |m|
    ensures forall k :: 0 <= k < |ext| && g.tensor(ext[k]).weight ==> m[ext[k]] == w.weightAt(g.tensor(ext[k]).data)
  {
    forall k | 0 <= k < |ext| ensures IsExternal(g, begin, ext[k], |m|) {
    }
  }

  lemma PlanSame(f: (Desc, seq<Value>) -> Value, h: (Desc, seq<Value>) -> Value, weightAt: nat -> Value,
                 key: Key, inputs: seq<Value>)
    requires forall d, args :: f(d, args) == h(d, args)
    ensures PlanValues(f, weightAt, key, inputs) == PlanValues(h, weightAt, key, inputs)
  {
    EvalSame(f, h, key.nodes, FillExternals(Externals(key.nodes), inputs, weightAt));
  }

  lemma InputsInside(g: Graph, size: nat, begin: nat, end: nat, p: Package, ext: seq<Id>)
    requires begin <= end <= |g.nodes| && Describes(g, size, begin, end, p, ext)
    ensures forall k :: 0 <= k < |p.inputs| ==> p.inputs[k] < size
  {
    forall k | 0 <= k < |ext| ensures ext[k] < size {
      assert IsExternal(g, begin, ext[k], size);
    }
    InputsOf(g, ext, size);
  }

  lemma {:induction false} InputsOf(g: Graph, ext: seq<Id>, size: nat)
    requires forall k :: 0 <= k < |ext| ==> ext[k] < size
    ensures forall k :: 0 <= k < |Inputs(g, ext)| ==> Inputs(g, ext)[k] < size
    decreases |ext|
  {
    if ext != [] {
      InputsOf(g, ext[..|ext| - 1], size);
    }
  }

  // HarmonyNpuFaster, for finite times
  predicate Faster(npuMs: real, cpuMs: real) {
    npuMs > 0.0 && cpuMs > 0.0 && npuMs < cpuMs * 0.8
  }

  // The key is planned and its plan has been validated.
  predicate Trusted(plans: map<Key, Plan>, key: Key) {
    key in plans && plans[key].validated
  }

  // What an attempt leaves of the plans.  Nothing but the plan of the package changes.  A package that is not
  // rejected is executed unless something outside fails or there is no room for its plan; a plan that ends well is
  // validated from then on, and one that was validated before ends well unless something outside fails.
  predicate TriedWith(plans0: map<Key, Plan>, rejected: set<Key>, plans1: map<Key, Plan>, key: Key, room: bool,
                      outcome: Outcome, executed: bool, faults: int) {
    && plans1 - {key} == plans0 - {key} && faults >= 0
    && (key in rejected ==> outcome == Done && !executed && plans1 == plans0)
    && (key !in rejected && outcome == Done ==> executed && Trusted(plans1, key))
    && (key !in rejected && faults == 0 && room ==> executed && !outcome.Stopped?)
    && (key !in rejected && faults == 0 && Trusted(plans0, key) ==> outcome == Done)
  }

  // The same as one fact.
  ghost predicate Tried(plans0: map<Key, Plan>, rejected: set<Key>, plans1: map<Key, Plan>, key: Key, room: bool,
                        outcome: Outcome, executed: bool, faults: int) {
    exists n :: n == faults && TriedWith(plans0, rejected, plans1, key, room, outcome, executed, n)
  }

  // What becomes of the plan of the package once it has been run.
  predicate Decided(plans0: map<Key, Plan>, plans1: map<Key, Plan>, key: Key, outcome: Outcome, executed: bool, faults: int) {
    && plans1 - {key} == plans0 - {key} && faults >= 0
    && (outcome == Done ==> executed && Trusted(plans1, key))
    && (faults == 0 ==> executed && !outcome.Stopped?)
    && (faults == 0 && Trusted(plans0, key) ==> outcome == Done)
  }

  // A plan was found or built.
  predicate HasPlan(plans0: map<Key, Plan>, mid: map<Key, Plan>, p: Package) {
    mid == plans0 || (p.key !in plans0 && mid == plans0[p.key := Plan(p.bytes, false)])
  }

  lemma LeftAlone(plans0: map<Key, Plan>, rejected: set<Key>, key: Key, room: bool)
    requires key in rejected
    ensures Tried(plans0, rejected, plans0, key, room, Done, false, 0)
  {
    assert TriedWith(plans0, rejected, plans0, key, room, Done, false, 0);
  }

  lemma NotRun(plans0: map<Key, Plan>, mid: map<Key, Plan>, rejected: set<Key>, p: Package, room: bool, outcome: Outcome,
               faults: int)
    requires HasPlan(plans0, mid, p) && p.key !in rejected && outcome != Done && faults >= 0 && (faults > 0 || !room)
    requires p.key in plans0 ==> room
    ensures Tried(plans0, rejected, mid, p.key, room, outcome, false, faults)
  {
    assert mid - {p.key} == plans0 - {p.key};
    assert TriedWith(plans0, rejected, mid, p.key, room, outcome, false, faults);
  }

  lemma RunAndDecided(plans0: map<Key, Plan>, mid: map<Key, Plan>, plans1: map<Key, Plan>, rejected: set<Key>, p: Package,
                      room: bool, outcome: Outcome, executed: bool, faults: int)
    requires HasPlan(plans0, mid, p) && p.key !in rejected && Decided(mid, plans1, p.key, outcome, executed, faults)
    ensures Tried(plans0, rejected, plans1, p.key, room, outcome, executed, faults)
  {
    assert mid - {p.key} == plans0 - {p.key};
    assert TriedWith(plans0, rejected, plans1, p.key, room, outcome, executed, faults);
  }

  // The catch block: a plan that threw is dropped and its key rejected, as long as there is room for it.
  predicate Caught(mid: map<Key, Plan>, rejected0: set<Key>, plans1: map<Key, Plan>, rejected1: set<Key>, key: Key,
                   outcome: Outcome) {
    if outcome == Threw then Dropped(mid, rejected0, plans1, rejected1, key) else plans1 == mid && rejected1 == rejected0
  }

  predicate Dropped(plans0: map<Key, Plan>, rejected0: set<Key>, plans1: map<Key, Plan>, rejected1: set<Key>, key: Key) {
    plans1 == plans0 - {key} && rejected1 == if |rejected0| < REJECTED_LIMIT then rejected0 + {key} else rejected0
  }

  // What a try leaves of the plans and the rejected keys: what the attempt left, and the catch block of that.
  ghost predicate Leaves(plans0: map<Key, Plan>, rejected0: set<Key>, plans1: map<Key, Plan>, rejected1: set<Key>, key: Key,
                         room: bool, executed: bool, stopped: bool, faults: int) {
    exists mid, outcome ::
      Tried(plans0, rejected0, mid, key, room, outcome, executed, faults)
      && Caught(mid, rejected0, plans1, rejected1, key, outcome) && (stopped <==> outcome.Stopped?)
  }

  predicate EndedWell(rejected0: set<Key>, plans1: map<Key, Plan>, rejected1: set<Key>, key: Key, executed: bool) {
    executed && Trusted(plans1, key) && rejected1 == rejected0
  }

  // Other plans stay.  A rejected package is left alone; any other ends well, with a validated plan, or its plan is
  // dropped and its key rejected.  It is executed unless something outside fails or there is no room for its plan, and
  // ends well if its plan was validated before and nothing fails.
  lemma LeavesMeans(plans0: map<Key, Plan>, rejected0: set<Key>, plans1: map<Key, Plan>, rejected1: set<Key>, key: Key,
                    room: bool, executed: bool, stopped: bool, faults: int)
    requires Leaves(plans0, rejected0, plans1, rejected1, key, room, executed, stopped, faults)
    ensures plans1 - {key} == plans0 - {key} && faults >= 0
    ensures key in rejected0 ==> !executed && !stopped && plans1 == plans0 && rejected1 == rejected0
    ensures key !in rejected0 && !stopped ==>
      EndedWell(rejected0, plans1, rejected1, key, executed) || Dropped(plans0, rejected0, plans1, rejected1, key)
    ensures key !in rejected0 && faults == 0 && room ==> executed && !stopped
    ensures key !in rejected0 && faults == 0 && Trusted(plans0, key) ==>
      EndedWell(rejected0, plans1, rejected1, key, executed)
  {
    var mid, outcome :| Tried(plans0, rejected0, mid, key, room, outcome, executed, faults)
      && Caught(mid, rejected0, plans1, rejected1, key, outcome) && (stopped <==> outcome.Stopped?);
    assert outcome == Threw ==> plans1 - {key} == mid - {key};
  }

  // The same for a package that may not be describable; then nothing changes.
  ghost predicate TryLeaves(plans0: map<Key, Plan>, rejected0: set<Key>, plans1: map<Key, Plan>, rejected1: set<Key>, t: Try,
                      room: bool, stopped: bool, faults: int) {
    && (t.fault <==> faults > 0)
    && if t.key.Some? then Leaves(plans0, rejected0, plans1, rejected1, t.key.value, room, t.executed, stopped, faults)
    else plans1 == plans0 && rejected1 == rejected0 && !t.executed && !t.fault && !stopped
  }

  // The try was made under the key of the package and its plan, and a validated plan is put to use unless something
  // outside fails.
  ghost predicate TryIs(g: Graph, size: nat, plans: map<Key, Plan>, rejected: set<Key>, t: Try) {
    && t.lo < t.hi <= |g.nodes| && KeyIs(g, size, t.lo, t.hi, t.key)
    && (t.trusted <==> t.key.Some? && Trusted(plans, t.key.value)) && TryOk(t)
  }

  predicate TryOk(t: Try) {
    (t.executed || t.trusted ==> t.key.Some?) && (t.trusted && !t.fault ==> t.executed)
  }

  // What a try leaves in memory and in the record of the ranges that were executed.
  ghost predicate Runs(g: Graph, m: seq<Value>, m': seq<Value>, ran: seq<Commit>, ran': seq<Commit>, begin: nat, end: nat,
                       executed: bool, trusted: bool, stopped: bool)
    requires Topological(g, |m|) && begin <= end <= |g.nodes|
  {
    && Executes(g, m, m', begin, end, executed, trusted)
    && ran' == ran + Ran(begin, end, executed, trusted)
    && (!executed && !trusted && !stopped ==> m' == m)
  }

  class Runtime {
    const world: World

    var enabled: bool
    var probed: bool
    var available: bool
    var plans: map<Key, Plan>
    var rejected: set<Key>
    var cachedBytes: nat
    var executions: nat
    var fallbacks: nat
    var cpuGraphs: nat
    var lastNpuMs: real
    var lastCpuMs: real

    // The budget is kept, a key is planned or rejected but not both, and a validated plan computes
    // what the CPU does.
    ghost predicate Valid()
      reads this
    {
      && cachedBytes == Total(plans) <= CACHE_LIMIT && |plans| <= PLAN_LIMIT && |rejected| <= REJECTED_LIMIT
      && (forall k :: k in plans ==> k !in rejected)
      && (forall k :: k in plans && plans[k].validated ==> world.exact(k))
    }

    constructor (world: World)
      ensures Valid() && this.world == world && !enabled && !available && plans == map[] && rejected == {}
    {
      this.world := world;
      enabled, probed, available := false, false, false;
      plans, rejected, cachedBytes := map[], {}, 0;
      executions, fallbacks, cpuGraphs := 0, 0, 0;
      lastNpuMs, lastCpuMs := 0.0, 0.0;
    }

    // The device is looked for once.
    method Probe() returns (found: bool)
      modifies this`probed, this`available, world`at
      ensures found == available && probed && (old(probed) ==> available == old(available))
    {
      if probed {
        return available;
      }
      probed := true;
      var b := world.Choose();
      available := b;
      return available;
    }

    // HarmonyNpuConfigure
    method Configure(on: bool)
      requires Valid()
      modifies this, world
      ensures Valid() && enabled == on && plans == map[] && rejected == {} && cachedBytes == 0
      ensures executions == fallbacks == cpuGraphs == 0 && lastNpuMs == lastCpuMs == 0.0
      ensures (on ==> probed) && (old(probed) ==> probed && available == old(available))
      ensures world.faults == old(world.faults)
    {
      plans := map[];
      rejected := {};
      enabled := on;
      executions, fallbacks, cpuGraphs, cachedBytes := 0, 0, 0, 0;
      lastNpuMs, lastCpuMs := 0.0, 0.0;
      if on {
        var _ := Probe();
      }
    }

    // Build: refused if the budget is used up, and it may fail later on; then nothing has changed.
    method Build(p: Package) returns (ok: bool)
      requires Valid() && p.key !in plans && p.key !in rejected
      modifies this`plans, this`cachedBytes, world
      ensures Valid()
      ensures ok ==> |old(plans)| < PLAN_LIMIT && old(cachedBytes) + p.bytes <= CACHE_LIMIT
      ensures ok ==> world.faults == old(world.faults)
      ensures !ok ==> world.faults > old(world.faults) || |plans| >= PLAN_LIMIT || cachedBytes + p.bytes > CACHE_LIMIT
      ensures world.faults >= old(world.faults)
      ensures plans == if ok then old(plans)[p.key := Plan(p.bytes, false)] else old(plans)
    {
      if |plans| >= PLAN_LIMIT || p.bytes > CACHE_LIMIT - cachedBytes {
        return false;
      }
      var fails := world.Fails();
      if fails {
        return false;
      }
      TotalAdd(plans, p.key, Plan(p.bytes, false));
      plans := plans[p.key := Plan(p.bytes, false)];
      cachedBytes := cachedBytes + p.bytes;
      return true;
    }

    // The catch block: the plan is dropped and its key remembered, as long as there is room.
    method Reject(key: Key)
      requires Valid()
      modifies this`plans, this`rejected, this`cachedBytes
      ensures Valid() && plans == old(plans) - {key}
      ensures rejected == if |old(rejected)| < REJECTED_LIMIT then old(rejected) + {key} else old(rejected)
    {
      if key in plans {
        TotalRemove(plans, key);
        cachedBytes := cachedBytes - plans[key].bytes;
        plans := plans - {key};
      }
      assert plans == old(plans) - {key};
      if |rejected| < REJECTED_LIMIT {
        rejected := rejected + {key};
      }
    }

    // The inputs are packed and the executor runs.
    method Execute(job: Job, p: Package) returns (results: Option<seq<Value>>, aborted: bool)
      requires forall k :: 0 <= k < |p.inputs| ==> p.inputs[k] < job.mem.Length
      modifies world, job`ends
      ensures results.Some? ==> !aborted && |results.value| == |p.key.outputs| && world.faults == old(world.faults)
      ensures results.None? ==> world.faults > old(world.faults)
      ensures job.ends == if aborted then old(job.ends) + [Aborted] else old(job.ends)
      ensures results.Some? && world.exact(p.key) ==> forall i :: 0 <= i < |p.key.outputs| && p.key.outputs[i] < |p.key.nodes| ==>
        results.value[i] == PlanValues(world.eval, world.weightAt, p.key, Operands(job.mem[..], p.inputs))[p.key.outputs[i]]
    {
      var fails := world.Fails();
      if fails {
        return None, false;
      }
      aborted := job.AbortAsked(world);
      if aborted {
        return None, true;
      }
      results := world.RunSync(p.key, Operands(job.mem[..], p.inputs));
    }

    /**
     A plan that has not been validated: the CPU computes the package, and the plan is validated if its
     results agree with the CPU's and it took less than 0.8 of the time.  agree is the answer of the comparison.
     */
    method Validate(job: Job, begin: nat, end: nat, key: Key) returns (outcome: Outcome, executed: bool, agree: bool)
      requires Valid() && key in plans && GraphOk(world, job.g, job.mem[..]) && begin < end <= |job.g.nodes|
      modifies this`plans, this`lastNpuMs, this`lastCpuMs, world, job`ran, job`ends, job.mem
      ensures Valid()
      ensures world.faults >= old(world.faults) && (!executed <==> world.faults > old(world.faults))
      ensures plans == if outcome == Done then old(plans)[key := old(plans)[key].(validated := true)] else old(plans)
      ensures executed ==> (outcome == Done <==> agree && Faster(lastNpuMs, lastCpuMs))
      ensures agree ==> world.exact(key)
      ensures OnlyNodes(job.g, old(job.mem[..]), job.mem[..], begin, end)
      ensures executed ==> job.mem[..] == Run(job.g, old(job.mem[..]), begin, end)
      ensures job.ran == old(job.ran) + if executed then [Commit(begin, end, ByCpu)] else []
      ensures !executed && outcome == Threw ==> job.mem[..] == old(job.mem[..])
      ensures outcome == Done ==> executed
      ensures outcome.Stopped? ==> outcome.rc != Success && !executed
      ensures job.ends == OutcomeEnds(old(job.ends), outcome)
    {
      executed, agree := false, false;
      var fails := world.Fails();
      if fails {
        return Threw, false, false;
      }
      var npuMs := world.Elapsed();
      var rc := Cpu(world, job, begin, end);
      if rc != Success {
        return Stopped(rc), false, false;
      }
      var cpuMs := world.Elapsed();
      lastNpuMs, lastCpuMs := npuMs, cpuMs;
      executed := true;
      agree := world.Close(key);
      if !agree || !Faster(npuMs, cpuMs) {
        return Threw, true, agree;
      }
      TotalReplace(plans, key, plans[key].(validated := true));
      plans := plans[key := plans[key].(validated := true)];
      outcome := Done;
    }

    // The results of a validated plan are copied to the output nodes; a buffer may fail midway.
    method CopyResults(job: Job, begin: nat, end: nat, p: Package, results: seq<Value>, ghost ref: seq<Value>)
      returns (ok: bool)
      requires Topological(job.g, job.mem.Length) && begin <= end <= |job.g.nodes| && |ref| == job.mem.Length
      requires OutputsOk(job.g, begin, end, p.outputs) && |results| == |p.outputs|
      requires forall i :: 0 <= i < |p.outputs| && begin + p.outputs[i] < end ==>
        results[i] == ref[job.g.nodes[begin + p.outputs[i]]]
      modifies world, job`ran, job.mem
      ensures world.faults == old(world.faults) + if ok then 0 else 1
      ensures OnlyNodes(job.g, old(job.mem[..]), job.mem[..], begin, end)
      ensures ok ==> forall i :: begin <= i < end && Required(job.g, i, end) ==> job.mem[job.g.nodes[i]] == ref[job.g.nodes[i]]
      ensures job.ran == old(job.ran) + if ok then [Commit(begin, end, ByNpu)] else []
    {
      var g, mem := job.g, job.mem;
      for i := 0 to |p.outputs|
        invariant OnlyNodes(g, old(mem[..]), mem[..], begin, end) && job.ran == old(job.ran) && world.faults == old(world.faults)
        invariant forall k :: 0 <= k < i ==>
          begin + p.outputs[k] < end && mem[g.nodes[begin + p.outputs[k]]] == ref[g.nodes[begin + p.outputs[k]]]
      {
        var fails := world.Fails();
        if fails {
          return false;
        }
        assert p.outputs[i] in p.outputs;
        mem[g.nodes[begin + p.outputs[i]]] := results[i];
      }
      forall i | begin <= i < end && Required(g, i, end) ensures mem[g.nodes[i]] == ref[g.nodes[i]] {
        assert i - begin in p.outputs;
        var k :| 0 <= k < |p.outputs| && p.outputs[k] == i - begin;
      }
      job.ran := job.ran + [Commit(begin, end, ByNpu)];
      return true;
    }

    // The package has a plan, or there is room for one.
    predicate HasRoom(p: Package)
      reads this
    {
      p.key in plans || (|plans| < PLAN_LIMIT && cachedBytes + p.bytes <= CACHE_LIMIT)
    }

    // A plan for the package is found or built, and run.
    method RunPackage(job: Job, p: Package) returns (outcome: Outcome, results: seq<Value>)
      requires Valid() && p.key !in rejected && forall k :: 0 <= k < |p.inputs| ==> p.inputs[k] < job.mem.Length
      modifies this`plans, this`cachedBytes, world, job`ends
      ensures Valid() && (outcome == Done ==> p.key in plans)
      ensures HasPlan(old(plans), plans, p)
      ensures world.faults >= old(world.faults) && (outcome == Done ==> world.faults == old(world.faults))
      ensures outcome != Done ==> world.faults > old(world.faults) || !old(HasRoom(p))
      ensures outcome == Done ==> |results| == |p.key.outputs|
      ensures outcome == Done && world.exact(p.key) ==>
        forall i :: 0 <= i < |p.key.outputs| && p.key.outputs[i] < |p.key.nodes| ==>
          results[i] == PlanValues(world.eval, world.weightAt, p.key, Operands(job.mem[..], p.inputs))[p.key.outputs[i]]
      ensures outcome.Stopped? ==> outcome.rc != Success
      ensures job.ends == OutcomeEnds(old(job.ends), outcome)
    {
      if p.key !in plans {
        var built := Build(p);
        if !built {
          return Threw, [];
        }
      }
      var r, aborted := Execute(job, p);
      if aborted {
        return Stopped(Aborted), [];
      }
      if r.None? {
        return Threw, [];
      }
      return Done, r.value;
    }

    // The results of a validated plan replace the CPU's.
    method UseResults(job: Job, begin: nat, end: nat, p: Package, results: seq<Value>, ghost ref: seq<Value>)
      returns (outcome: Outcome, executed: bool)
      requires GraphOk(world, job.g, job.mem[..]) && begin <= end <= |job.g.nodes| && ref == Run(job.g, job.mem[..], begin, end)
      requires OutputsOk(job.g, begin, end, p.outputs) && |results| == |p.outputs|
      requires forall i :: 0 <= i < |p.outputs| && begin + p.outputs[i] < end ==>
        results[i] == ref[job.g.nodes[begin + p.outputs[i]]]
      modifies this`executions, world, job`ran, job`ends, job.mem
      ensures OnlyNodes(job.g, old(job.mem[..]), job.mem[..], begin, end)
      ensures executed <==> outcome == Done
      ensures world.faults >= old(world.faults) && (executed <==> world.faults == old(world.faults))
      ensures executions == old(executions) + if executed then 1 else 0
      ensures executed ==> PackageDone(job.g, old(job.mem[..]), job.mem[..], begin, end)
      ensures job.ran == old(job.ran) + if executed then [Commit(begin, end, ByNpu)] else []
      ensures outcome.Stopped? ==> outcome.rc != Success
      ensures job.ends == OutcomeEnds(old(job.ends), outcome)
    {
      var aborted := job.AbortAsked(world);
      if aborted {
        return Stopped(Aborted), false;
      }
      var ok := CopyResults(job, begin, end, p, results, ref);
      if !ok {
        return Threw, false;
      }
      executions := executions + 1;
      return Done, true;
    }

    // The results are checked against the CPU's if the plan has not been validated, and otherwise put to use.
    method Decide(job: Job, begin: nat, end: nat, p: Package, results: seq<Value>, ghost ext: seq<Id>)
      returns (outcome: Outcome, executed: bool)
      requires Valid() && GraphOk(world, job.g, job.mem[..]) && begin < end <= |job.g.nodes|
      requires Describes(job.g, job.mem.Length, begin, end, p, ext) && p.key in plans && |results| == |p.key.outputs|
      requires forall k :: 0 <= k < |p.inputs| ==> p.inputs[k] < job.mem.Length
      requires world.exact(p.key) ==> forall i :: 0 <= i < |p.key.outputs| && p.key.outputs[i] < |p.key.nodes| ==>
        results[i] == PlanValues(world.eval, world.weightAt, p.key, Operands(job.mem[..], p.inputs))[p.key.outputs[i]]
      modifies this`plans, this`executions, this`lastNpuMs, this`lastCpuMs, world, job`ran, job`ends, job.mem
      ensures Valid()
      ensures Decided(old(plans), plans, p.key, outcome, executed, world.faults - old(world.faults))
      ensures executions == old(executions) + if executed && Trusted(old(plans), p.key) then 1 else 0
      ensures OnlyNodes(job.g, old(job.mem[..]), job.mem[..], begin, end)
      ensures Runs(job.g, old(job.mem[..]), job.mem[..], old(job.ran), job.ran, begin, end, executed,
                   Trusted(old(plans), p.key), outcome.Stopped?)
      ensures outcome.Stopped? ==> outcome.rc != Success
      ensures job.ends == OutcomeEnds(old(job.ends), outcome)
    {
      if !plans[p.key].validated {
        var agree;
        outcome, executed, agree := Validate(job, begin, end, p.key);
        if outcome == Done {
          var aborted := job.AbortAsked(world);
          if aborted {
            outcome := Stopped(Aborted);
          }
        }
      } else {
        ResultsAreRight(world, job.g, job.mem[..], begin, end, p, ext, results);
        outcome, executed := UseResults(job, begin, end, p, results, Run(job.g, job.mem[..], begin, end));
      }
    }

    /**
     The try block for a described package.  If the package was executed, the NPU's results were copied if the
     plan was validated before, and otherwise the CPU computed it.
     */
    method Attempt(job: Job, begin: nat, end: nat, p: Package, ghost ext: seq<Id>) returns (outcome: Outcome, executed: bool)
      requires Valid() && GraphOk(world, job.g, job.mem[..]) && begin < end <= |job.g.nodes|
      requires Describes(job.g, job.mem.Length, begin, end, p, ext)
      modifies this`plans, this`cachedBytes, this`executions, this`lastNpuMs, this`lastCpuMs, world, job`ran, job`ends, job.mem
      ensures Valid()
      ensures Tried(old(plans), rejected, plans, p.key, old(HasRoom(p)), outcome, executed,
                    world.faults - old(world.faults))
      ensures executions == old(executions) + if executed && Trusted(old(plans), p.key) then 1 else 0
      ensures OnlyNodes(job.g, old(job.mem[..]), job.mem[..], begin, end)
      ensures Runs(job.g, old(job.mem[..]), job.mem[..], old(job.ran), job.ran, begin, end, executed,
                   Trusted(old(plans), p.key), outcome.Stopped?)
      ensures outcome.Stopped? ==> outcome.rc != Success
      ensures job.ends == OutcomeEnds(old(job.ends), outcome)
    {
      executed := false;
      if p.key in rejected {
        LeftAlone(plans, rejected, p.key, HasRoom(p));
        return Done, false;
      }
      InputsInside(job.g, job.mem.Length, begin, end, p, ext);
      var results;
      outcome, results := RunPackage(job, p);
      ghost var mid := plans;
      if outcome != Done {
        NotRun(old(plans), mid, rejected, p, old(HasRoom(p)), outcome, world.faults - old(world.faults));
        return;
      }
      outcome, executed := Decide(job, begin, end, p, results, ext);
      RunAndDecided(old(plans), mid, plans, rejected, p, old(HasRoom(p)), outcome, executed, world.faults - old(world.faults));
    }

    // The catch block and the count of fallbacks.
    method Catch(key: Key, outcome: Outcome, executed: bool)
      requires Valid()
      modifies this`plans, this`rejected, this`cachedBytes, this`fallbacks
      ensures Valid() && Caught(old(plans), old(rejected), plans, rejected, key, outcome)
      ensures fallbacks == old(fallbacks) + if !outcome.Stopped? && (!executed || key in rejected) then 1 else 0
    {
      if outcome.Stopped? {
        return;
      }
      if outcome == Threw {
        Reject(key);
      }
      if !executed || key in rejected {
        fallbacks := fallbacks + 1;
      }
    }

    // The try block and its catch block, for a package that was described.
    method AttemptAndCatch(job: Job, begin: nat, end: nat, p: Package, ghost ext: seq<Id>)
      returns (executed: bool, stop: Option<Status>)
      requires Valid() && GraphOk(world, job.g, job.mem[..]) && begin < end <= |job.g.nodes|
      requires Describes(job.g, job.mem.Length, begin, end, p, ext)
      modifies this, world, job`ran, job`ends, job.mem
      ensures Valid() && SameSwitch(old(enabled), old(probed), old(available))
      ensures Leaves(old(plans), old(rejected), plans, rejected, p.key, old(HasRoom(p)), executed, stop.Some?,
                     world.faults - old(world.faults))
      ensures executions == old(executions) + if executed && Trusted(old(plans), p.key) then 1 else 0
      ensures fallbacks == old(fallbacks) + if stop.None? && (!executed || p.key in rejected) then 1 else 0
      ensures OnlyNodes(job.g, old(job.mem[..]), job.mem[..], begin, end)
      ensures Runs(job.g, old(job.mem[..]), job.mem[..], old(job.ran), job.ran, begin, end, executed,
                   Trusted(old(plans), p.key), stop.Some?)
      ensures stop.Some? ==> stop.value != Success
      ensures job.ends == StopEnds(old(job.ends), stop)
    {
      var outcome;
      outcome, executed := Attempt(job, begin, end, p, ext);
      ghost var mid := plans;
      Catch(p.key, outcome, executed);
      stop := if outcome.Stopped? then Some(outcome.rc) else None;
    }

    predicate SameSwitch(on: bool, looked: bool, found: bool)
      reads this
    {
      enabled == on && probed == looked && available == found
    }

    /**
     The part of HarmonyNpuCompute that holds the lock for one package.  t records the try: the key of the package,
     if it can be described, and whether the plan of that key was validated, which decides between the NPU's
     results and the CPU's.
     */
    method TryPackage(job: Job, begin: nat, end: nat) returns (executed: bool, stop: Option<Status>, ghost t: Try)
      requires Valid() && GraphOk(world, job.g, job.mem[..]) && begin < end <= |job.g.nodes|
      modifies this, world, job, job.mem
      ensures Valid() && SameSwitch(old(enabled), old(probed), old(available))
      ensures job.tried == old(job.tried) + [t] && t.lo == begin && t.hi == end && t.executed == executed
      ensures TryIs(job.g, job.mem.Length, old(plans), old(rejected), t)
      ensures TryLeaves(old(plans), old(rejected), plans, rejected, t, old(RoomFor(job.g, job.mem.Length, begin, end)),
                        stop.Some?, world.faults - old(world.faults))
      ensures executions == old(executions) + if executed && t.trusted then 1 else 0
      ensures fallbacks == old(fallbacks) + if stop.None? && (!executed || t.key.value in rejected) then 1 else 0
      ensures OnlyNodes(job.g, old(job.mem[..]), job.mem[..], begin, end)
      ensures Runs(job.g, old(job.mem[..]), job.mem[..], old(job.ran), job.ran, begin, end, executed, t.trusted, stop.Some?)
      ensures stop.Some? ==> stop.value != Success
      ensures job.ends == StopEnds(old(job.ends), stop)
    {
      ghost var before := world.faults;
      ghost var room := RoomFor(job.g, job.mem.Length, begin, end);
      var described; ghost var ext, key;
      described, ext, key := DescribeKey(job.g, begin, end, job.mem.Length);
      if described.Some? {
        RoomIs(job.g, job.mem.Length, begin, end, described.value, ext);
        executed, stop := AttemptAndCatch(job, begin, end, described.value, ext);
        t := Try(begin, end, key, Trusted(old(plans), described.value.key), executed, world.faults > before);
      } else {
        executed, stop := false, None;
        fallbacks := fallbacks + 1;
        t := Try(begin, end, None, false, false, false);
      }
      job.tried := job.tried + [t];
    }

    // There is room for the plan of the package.
    ghost predicate RoomFor(g: Graph, size: nat, begin: nat, end: nat)
      requires begin <= end <= |g.nodes|
      reads this
    {
      exists p, ext :: Describes(g, size, begin, end, p, ext) && HasRoom(p)
    }

    lemma RoomIs(g: Graph, size: nat, begin: nat, end: nat, p: Package, ext: seq<Id>)
      requires Topological(g, size) && begin <= end <= |g.nodes| && Describes(g, size, begin, end, p, ext)
      ensures RoomFor(g, size, begin, end) <==> HasRoom(p)
    {
      if RoomFor(g, size, begin, end) {
        var q, other :| Describes(g, size, begin, end, q, other) && HasRoom(q);
        OneDescription(g, size, begin, end, p, ext, q, other);
      }
    }
  }

  // The package from begin to end has this key.
  ghost predicate KeyOf(g: Graph, size: nat, begin: nat, end: nat, key: Key)
    requires begin <= end <= |g.nodes|
  {
    exists p, ext :: Describes(g, size, begin, end, p, ext) && p.key == key
  }

  // The key of the package, or none if it cannot be described.
  ghost predicate KeyIs(g: Graph, size: nat, begin: nat, end: nat, key: Option<Key>)
    requires begin <= end <= |g.nodes|
  {
    if key.Some? then KeyOf(g, size, begin, end, key.value)
    else forall k :: !KeyOf(g, size, begin, end, k)
  }

  // The key depends on the package alone, so a package finds the plan that was built for it.
  lemma OneKey(g: Graph, size: nat, begin: nat, end: nat, key: Option<Key>, again: Option<Key>)
    requires Topological(g, size) && begin <= end <= |g.nodes|
    requires KeyIs(g, size, begin, end, key) && KeyIs(g, size, begin, end, again)
    ensures key == again
  {
    if key.Some? && again.Some? {
      var p, ext :| Describes(g, size, begin, end, p, ext) && p.key == key.value;
      var q, other :| Describes(g, size, begin, end, q, other) && q.key == again.value;
      OneDescription(g, size, begin, end, p, ext, q, other);
    }
  }

  // Describe, and what is looked up in the cache.
  method DescribeKey(g: Graph, begin: nat, end: nat, ghost size: nat)
    returns (r: Option<Package>, ghost ext: seq<Id>, ghost key: Option<Key>)
    requires Topological(g, size) && begin < end <= |g.nodes|
    ensures r.Some? ==> Describes(g, size, begin, end, r.value, ext) && key == Some(r.value.key)
    ensures r.None? ==> key.None?
    ensures KeyIs(g, size, begin, end, key)
  {
    r, ext := Describe(g, begin, end, size);
    key := if r.Some? then Some(r.value.key) else None;
    if r.None? {
      forall k ensures !KeyOf(g, size, begin, end, k) {
        if KeyOf(g, size, begin, end, k) {
          var p, other :| Describes(g, size, begin, end, p, other) && p.key == k;
          AllReadable(g, size, begin, end, p.key.nodes, other);
        }
      }
    }
  }

  // What an executed package leaves in memory: with a trusted plan at least the required values, and
  // otherwise all that the CPU computes.
  ghost predicate Executes(g: Graph, m: seq<Value>, m': seq<Value>, begin: nat, end: nat, executed: bool, trusted: bool)
    requires Topological(g, |m|) && begin <= end <= |g.nodes|
  {
    executed ==> if trusted then PackageDone(g, m, m', begin, end) else m' == Run(g, m, begin, end)
  }

  function Ran(begin: nat, end: nat, executed: bool, trusted: bool): seq<Commit> {
    if executed then [Commit(begin, end, if trusted then ByNpu else ByCpu)] else []
  }

  lemma ExecutedIsDone(g: Graph, m: seq<Value>, m': seq<Value>, begin: nat, end: nat, trusted: bool)
    requires Topological(g, |m|) && begin <= end <= |g.nodes| && Executes(g, m, m', begin, end, true, trusted)
    ensures PackageDone(g, m, m', begin, end)
  {
    if !trusted { RunIsDone(g, m, begin, end); }
  }

  // Computing all nodes is in particular computing the required ones.
  lemma RunIsDone(g: Graph, m: seq<Value>, a: nat, b: nat)
    requires Topological(g, |m|) && a <= b <= |g.nodes|
    ensures PackageDone(g, m, Run(g, m, a, b), a, b)
  {
    forall x | 0 <= x < |m| && (forall i :: a <= i < b ==> g.nodes[i] != x) ensures Run(g, m, a, b)[x] == m[x] {
      RunElsewhere(g, m, a, b, x);
    }
  }

  // ---------- other callers ----------

  // What other callers do while the lock is free: configure the runtime and try packages of their own.
  method Interfere(r: Runtime, job: Job)
    requires r.Valid() && GraphOk(r.world, job.g, job.mem[..])
    modifies r, r.world, job, job.mem
    ensures r.Valid() && GraphOk(r.world, job.g, job.mem[..])
    ensures old(r.probed) ==> r.probed && r.available == old(r.available)
  {
    var rounds := r.world.numbers(r.world.at);
    for i := 0 to rounds
      invariant r.Valid() && GraphOk(r.world, job.g, job.mem[..])
      invariant old(r.probed) ==> r.probed && r.available == old(r.available)
    {
      var configure := r.world.Choose();
      if configure {
        var on := r.world.Choose();
        r.Configure(on);
      } else if |job.g.nodes| > 0 {
        var begin := r.world.Pick(|job.g.nodes|);
        var size := r.world.Pick(|job.g.nodes| - begin);
        ghost var was := job.mem[..];
        var executed, stop; ghost var t;
        executed, stop, t := r.TryPackage(job, begin, begin + size + 1);
        GraphOkKept(r.world, job.g, was, job.mem[..], begin, begin + size + 1);
      }
    }
  }

  // ---------- cutting the graph ----------

  // The ranges follow one another from node 0 to node c.
  predicate Tiles(log: seq<Commit>, c: nat) {
    if log == [] then c == 0
    else
      var last := log[|log| - 1];
      last.lo < last.hi == c && Tiles(log[..|log| - 1], last.lo)
  }

  // Each node is in exactly one range.
  lemma {:induction false} TilesCover(log: seq<Commit>, c: nat, i: nat)
    requires Tiles(log, c) && i < c
    ensures exists k :: 0 <= k < |log| && log[k].lo <= i < log[k].hi
    ensures forall k, m :: 0 <= k < m < |log| ==> log[k].hi <= log[m].lo
    decreases |log|
  {
    var d := |log| - 1;
    var last := log[d];
    if i < last.lo {
      TilesCover(log[..d], last.lo, i);
      var k :| 0 <= k < d && log[..d][k].lo <= i < log[..d][k].hi;
      assert log[k] == log[..d][k];
    }
    TilesInOrder(log, c);
  }

  lemma {:induction false} TilesInOrder(log: seq<Commit>, c: nat)
    requires Tiles(log, c)
    ensures forall k :: 0 <= k < |log| ==> log[k].lo < log[k].hi <= c
    ensures forall k, m :: 0 <= k < m < |log| ==> log[k].hi <= log[m].lo
    decreases |log|
  {
    if log != [] {
      var d := |log| - 1;
      TilesInOrder(log[..d], log[d].lo);
      assert forall k :: 0 <= k < d ==> log[..d][k] == log[k];
    }
  }

  lemma TilesMore(log: seq<Commit>, c: nat, d: nat, how: How)
    requires Tiles(log, c) && c <= d
    ensures Tiles(log + Commits(c, d, how), d)
  {
    if c < d {
      assert (log + [Commit(c, d, how)])[..|log|] == log;
    } else {
      assert log + [] == log;
    }
  }

  // The ranges follow one another from node 0 on.
  predicate Consecutive(log: seq<Commit>) {
    Tiles(log, if log == [] then 0 else log[|log| - 1].hi)
  }

  lemma TilesConsecutive(log: seq<Commit>, c: nat)
    requires Tiles(log, c)
    ensures Consecutive(log)
  {}

  predicate AllSupported(g: Graph, a: nat, b: nat)
    requires a <= b <= |g.nodes|
  {
    forall i :: a <= i < b ==> At(g, i).supported
  }

  // The nodes from begin to end are all supported, at most 32 of them, or all unsupported, and one more would not do.
  predicate IsRange(g: Graph, begin: nat, end: nat) {
    && begin < end <= |g.nodes|
    && (forall i :: begin <= i < end ==> At(g, i).supported == At(g, begin).supported)
    && (At(g, begin).supported ==> end - begin <= 32)
    && (end < |g.nodes| ==> At(g, end).supported != At(g, begin).supported || (At(g, begin).supported && end - begin == 32))
  }

  lemma OneRange(g: Graph, begin: nat, end: nat, other: nat)
    requires IsRange(g, begin, end) && IsRange(g, begin, other)
    ensures end == other
  {
  }

  ghost function RangeEnd(g: Graph, begin: nat, end: nat): (e: nat)
    requires begin < end <= |g.nodes| && (At(g, begin).supported ==> end - begin <= 32)
    requires forall i :: begin <= i < end ==> At(g, i).supported == At(g, begin).supported
    ensures IsRange(g, begin, e)
    decreases |g.nodes| - end
  {
    if IsRange(g, begin, end) then end else RangeEnd(g, begin, end + 1)
  }

  // The next range.
  method NextRange(g: Graph, begin: nat) returns (end: nat, supported: bool)
    requires begin < |g.nodes|
    ensures IsRange(g, begin, end) && supported == At(g, begin).supported
  {
    supported := At(g, begin).supported;
    end := begin + 1;
    while end < |g.nodes| && At(g, end).supported == supported && (!supported || end - begin < 32)
      invariant begin < end <= |g.nodes| && (supported ==> end - begin <= 32)
      invariant forall i :: begin <= i < end ==> At(g, i).supported == supported
    {
      end := end + 1;
    }
  }

  // The package from a to b can be described and fits the cache.
  ghost predicate Fits(g: Graph, size: nat, a: nat, b: nat)
    requires a <= b <= |g.nodes|
  {
    exists p, ext :: Describes(g, size, a, b, p, ext) && p.bytes <= CACHE_LIMIT
  }

  // What Describe returns decides: a package has one description.
  lemma DescribeDecides(g: Graph, size: nat, a: nat, b: nat, r: Option<Package>, ext: seq<Id>)
    requires Topological(g, size) && a <= b <= |g.nodes|
    requires r.None? ==> exists i, k :: a <= i < b && 0 <= k < |At(g, i).srcs| && Unreadable(g, a, i, k)
    requires r.Some? ==> Describes(g, size, a, b, r.value, ext)
    ensures Fits(g, size, a, b) <==> r.Some? && r.value.bytes <= CACHE_LIMIT
  {
    if Fits(g, size, a, b) {
      var q, other :| Describes(g, size, a, b, q, other) && q.bytes <= CACHE_LIMIT;
      AllReadable(g, size, a, b, q.key.nodes, other);
      if r.Some? { OneDescription(g, size, a, b, r.value, ext, q, other); }
    }
  }

  // The first end, halving the range, whose package fits the budget, or a single node.
  ghost function FirstFit(g: Graph, size: nat, begin: nat, end: nat): (e: nat)
    requires begin < end <= |g.nodes|
    ensures begin < e <= end && (e == begin + 1 || Fits(g, size, begin, e))
    decreases end
  {
    if end == begin + 1 || Fits(g, size, begin, end) then end
    else FirstFit(g, size, begin, begin + (end - begin) / 2)
  }

  // Whether the package can be described within the budget; the source catches the exception of Describe.
  method TryFit(g: Graph, begin: nat, end: nat, ghost size: nat) returns (fits: bool)
    requires Topological(g, size) && begin < end <= |g.nodes|
    ensures fits == Fits(g, size, begin, end)
  {
    var described; ghost var ext;
    described, ext := Describe(g, begin, end, size);
    DescribeDecides(g, size, begin, end, described, ext);
    fits := described.Some? && described.value.bytes <= CACHE_LIMIT;
  }

  method FitBudget(g: Graph, begin: nat, end0: nat, ghost size: nat) returns (end: nat)
    requires Topological(g, size) && begin < end0 <= |g.nodes|
    ensures end == FirstFit(g, size, begin, end0)
  {
    end := end0;
    while end > begin + 1
      invariant begin < end <= end0 && FirstFit(g, size, begin, end) == FirstFit(g, size, begin, end0)
    {
      var fits := TryFit(g, begin, end, size);
      if fits {
        break;
      }
      end := begin + (end - begin) / 2;
    }
  }

  // ---------- the packages that are tried ----------

  // The end of the range from begin on that is looked at, before it is cut to fit.
  ghost function WholeRange(g: Graph, begin: nat): (e: nat)
    requires begin < |g.nodes|
    ensures IsRange(g, begin, e)
  {
    RangeEnd(g, begin, begin + 1)
  }

  ghost function PackageEnd(g: Graph, size: nat, begin: nat): (e: nat)
    requires begin < |g.nodes|
    ensures begin < e <= WholeRange(g, begin)
  {
    var e := WholeRange(g, begin);
    if At(g, begin).supported && Worth(g, begin, e) then FirstFit(g, size, begin, e) else e
  }

  // The NPU is tried on supported nodes if the transfer is worth it.
  ghost predicate IsTried(g: Graph, size: nat, begin: nat)
    requires begin < |g.nodes|
  {
    At(g, begin).supported && Worth(g, begin, WholeRange(g, begin)) && Worth(g, begin, PackageEnd(g, size, begin))
  }

  // The packages from node begin on that are tried on the NPU.
  ghost function Planned(g: Graph, size: nat, begin: nat): (spans: seq<(nat, nat)>)
    requires begin <= |g.nodes|
    decreases |g.nodes| - begin
  {
    if begin == |g.nodes| then []
    else
      var end := PackageEnd(g, size, begin);
      (if IsTried(g, size, begin) then [(begin, end)] else []) + Planned(g, size, end)
  }

  lemma LargeInPackage(g: Graph, size: nat, begin: nat, i: nat)
    requires begin < |g.nodes| && begin <= i < PackageEnd(g, size, begin) && At(g, i).large && At(g, i).supported
    ensures IsTried(g, size, begin)
  {
    assert At(g, i).supported == At(g, begin).supported;
  }

  lemma InBehind<T>(first: seq<T>, rest: seq<T>, x: T)
    ensures x in first + rest <==> x in first || x in rest
  {}

  // Every matrix product that is supported and large is in a package that is tried.
  lemma {:induction false} LargeIsTried(g: Graph, size: nat, begin: nat, i: nat) returns (lo: nat, hi: nat)
    requires begin <= i < |g.nodes| && At(g, i).large && At(g, i).supported
    ensures (lo, hi) in Planned(g, size, begin) && lo <= i < hi
    decreases |g.nodes| - begin
  {
    var end := PackageEnd(g, size, begin);
    if i < end {
      LargeInPackage(g, size, begin, i);
      lo, hi := begin, end;
      InBehind([(begin, end)], Planned(g, size, end), (lo, hi));
    } else {
      lo, hi := LargeIsTried(g, size, end, i);
      InBehind(if IsTried(g, size, begin) then [(begin, end)] else [], Planned(g, size, end), (lo, hi));
    }
  }

  // The ranges that tries leave, with the CPU's ranges between them, and the node up to which they reach.
  function LogOf(ts: seq<Try>): seq<Commit> {
    if ts == [] then []
    else
      var before, t := ts[..|ts| - 1], ts[|ts| - 1];
      LogOf(before) + Commits(CursorOf(before), t.lo, ByCpu) + Ran(t.lo, t.hi, t.executed, t.trusted)
  }

  function CursorOf(ts: seq<Try>): nat {
    if ts == [] then 0 else if ts[|ts| - 1].executed then ts[|ts| - 1].hi else ts[|ts| - 1].lo
  }

  function Spans(ts: seq<Try>): (spans: seq<(nat, nat)>) {
    seq(|ts|, k requires 0 <= k < |ts| => (ts[k].lo, ts[k].hi))
  }

  predicate AllTriesOk(ts: seq<Try>) {
    forall k :: 0 <= k < |ts| ==> TryOk(ts[k])
  }

  // A package whose plan had been validated is computed by the NPU, unless something outside failed meanwhile.
  lemma {:induction false} TrustedByNpu(ts: seq<Try>, k: nat)
    requires AllTriesOk(ts) && k < |ts| && ts[k].trusted && !ts[k].fault
    ensures Commit(ts[k].lo, ts[k].hi, ByNpu) in LogOf(ts)
    decreases |ts|
  {
    var before, t := ts[..|ts| - 1], ts[|ts| - 1];
    var own := Ran(t.lo, t.hi, t.executed, t.trusted);
    var c := Commit(ts[k].lo, ts[k].hi, ByNpu);
    assert TryOk(ts[k]);
    InBehind(LogOf(before) + Commits(CursorOf(before), t.lo, ByCpu), own, c);
    if k < |before| {
      assert forall j :: 0 <= j < |before| ==> before[j] == ts[j] && TryOk(ts[j]);
      TrustedByNpu(before, k);
      InBehind(LogOf(before), Commits(CursorOf(before), t.lo, ByCpu), c);
    } else {
      assert own == [c];
    }
  }

  // The next package: its end, and whether the NPU is to be tried.
  method NextPackage(g: Graph, begin: nat, ghost size: nat) returns (end: nat, supported: bool)
    requires Topological(g, size) && begin < |g.nodes|
    ensures end == PackageEnd(g, size, begin) && supported == IsTried(g, size, begin)
    ensures begin < end <= |g.nodes|
    ensures supported ==> AllSupported(g, begin, end) && end - begin <= 32 && Worth(g, begin, end)
    ensures supported ==> end == begin + 1 || Fits(g, size, begin, end)
  {
    end, supported := NextRange(g, begin);
    OneRange(g, begin, end, WholeRange(g, begin));
    var worth := WorthTrying(g, begin, end);
    supported := supported && worth;
    if supported {
      end := FitBudget(g, begin, end, size);
      supported := WorthTrying(g, begin, end);
    }
  }

  lemma OneMoreTry(ts: seq<Try>, t: Try)
    ensures LogOf(ts + [t]) == LogOf(ts) + Commits(CursorOf(ts), t.lo, ByCpu) + Ran(t.lo, t.hi, t.executed, t.trusted)
    ensures CursorOf(ts + [t]) == if t.executed then t.hi else t.lo
    ensures Spans(ts + [t]) == Spans(ts) + [(t.lo, t.hi)]
    ensures AllTriesOk(ts) && TryOk(t) ==> AllTriesOk(ts + [t])
  {
    assert (ts + [t])[..|ts|] == ts;
  }

  // ---------- HarmonyNpuCompute ----------

  // Every NPU range holds supported operators only, at most 32, and one worth the transfer.
  predicate NpuRangesOk(g: Graph, log: seq<Commit>) {
    forall k :: 0 <= k < |log| && log[k].how == ByNpu ==>
      log[k].lo <= log[k].hi <= |g.nodes| && AllSupported(g, log[k].lo, log[k].hi) && log[k].hi - log[k].lo <= 32
      && Worth(g, log[k].lo, log[k].hi)
  }

  // The nodes up to c are settled: every value that matters is the CPU's.
  ghost predicate Settled(w: World, g: Graph, m0: seq<Value>, m: seq<Value>, log: seq<Commit>, c: nat)
  {
    && GraphOk(w, g, m0) && GraphOk(w, g, m) && c <= |g.nodes| && |m| == |m0|
    && Tiles(log, c) && NpuRangesOk(g, log) && Agree(g, m, Run(g, m0, 0, c), c)
  }

  // What a call found: the records of the job and its memory.
  datatype Begun = Begun(ran: seq<Commit>, tried: seq<Try>, mem: seq<Value>)

  // The records hold the ranges of the log and the tries behind those of earlier calls, and the nodes up to c are
  // settled.
  ghost predicate Progress(w: World, job: Job, b: Begun, ts: seq<Try>, log: seq<Commit>, c: nat)
    reads job, job.mem
  {
    job.ran == b.ran + log && job.tried == b.tried + ts && Settled(w, job.g, b.mem, job.mem[..], log, c)
  }

  // The tries so far account for all that was executed.
  ghost predicate Going(w: World, job: Job, b: Begun, ts: seq<Try>)
    reads job, job.mem
  {
    Progress(w, job, b, ts, LogOf(ts), CursorOf(ts)) && AllTriesOk(ts)
  }

  // What is left when the computation stops.
  ghost predicate Halted(job: Job, b: Begun, log: seq<Commit>)
    reads job
  {
    job.ran == b.ran + log && Consecutive(log)
  }

  lemma ProgressHalts(w: World, job: Job, b: Begun, ts: seq<Try>, log: seq<Commit>, c: nat)
    requires Progress(w, job, b, ts, log, c)
    ensures Halted(job, b, log)
  {
    TilesConsecutive(log, c);
  }

  lemma AppendRan<T>(ran0: seq<T>, log: seq<T>, more: seq<T>)
    ensures (ran0 + log) + more == ran0 + (log + more)
  {}

  lemma CpuSettles(w: World, g: Graph, m0: seq<Value>, m: seq<Value>, m': seq<Value>, log: seq<Commit>, a: nat, b: nat)
    requires Settled(w, g, m0, m, log, a) && a <= b <= |g.nodes| && OnlyNodes(g, m, m', a, b) && m' == Run(g, m, a, b)
    ensures Settled(w, g, m0, m', log + Commits(a, b, ByCpu), b)
  {
    GraphOkKept(w, g, m, m', a, b);
    TilesMore(log, a, b, ByCpu);
    RunAgrees(g, m, Run(g, m0, 0, a), a, b);
    RunSplit(g, m0, 0, a, b);
  }

  // The CPU computes the pending nodes.
  method RunPending(w: World, job: Job, a: nat, b: nat, ghost start: Begun, ghost ts: seq<Try>, ghost log: seq<Commit>)
    returns (rc: Status)
    requires Progress(w, job, start, ts, log, a) && a <= b <= |job.g.nodes|
    modifies w, job`ran, job`ends, job.mem
    ensures rc == Success ==> Progress(w, job, start, ts, log + Commits(a, b, ByCpu), b)
    ensures rc != Success ==> Halted(job, start, log)
    ensures job.ends == Ends(old(job.ends), rc)
  {
    ghost var was := job.mem[..];
    rc := Cpu(w, job, a, b);
    if rc == Success {
      CpuSettles(w, job.g, start.mem, was, job.mem[..], log, a, b);
      AppendRan(start.ran, log, Commits(a, b, ByCpu));
    } else {
      AppendRan(start.ran, log, []);
      assert log + [] == log;
      TilesConsecutive(log, a);
    }
  }

  lemma PackageSettles(w: World, g: Graph, m0: seq<Value>, m: seq<Value>, m': seq<Value>, log: seq<Commit>,
                       begin: nat, end: nat, trusted: bool)
    requires Settled(w, g, m0, m, log, begin) && begin < end <= |g.nodes| && OnlyNodes(g, m, m', begin, end)
    requires AllSupported(g, begin, end) && end - begin <= 32 && Worth(g, begin, end)
    requires Executes(g, m, m', begin, end, true, trusted)
    ensures Settled(w, g, m0, m', log + Ran(begin, end, true, trusted), end)
  {
    GraphOkKept(w, g, m, m', begin, end);
    TilesMore(log, begin, end, if trusted then ByNpu else ByCpu);
    ExecutedIsDone(g, m, m', begin, end, trusted);
    PackageAgrees(g, m, m', Run(g, m0, 0, begin), begin, end);
    RunSplit(g, m0, 0, begin, end);
  }

  lemma ScratchSettles(w: World, g: Graph, m0: seq<Value>, m: seq<Value>, m': seq<Value>, log: seq<Commit>, begin: nat,
                       end: nat)
    requires Settled(w, g, m0, m, log, begin) && begin < end <= |g.nodes| && OnlyNodes(g, m, m', begin, end)
    ensures Settled(w, g, m0, m', log, begin)
  {
    GraphOkKept(w, g, m, m', begin, end);
    ScratchAgrees(g, m, m', Run(g, m0, 0, begin), begin, end);
  }

  lemma TrySettles(w: World, g: Graph, m0: seq<Value>, m: seq<Value>, m': seq<Value>, log: seq<Commit>, ran: seq<Commit>,
                   ran': seq<Commit>, t: Try, stopped: bool)
    requires Settled(w, g, m0, m, log, t.lo) && t.lo < t.hi <= |g.nodes| && OnlyNodes(g, m, m', t.lo, t.hi)
    requires AllSupported(g, t.lo, t.hi) && t.hi - t.lo <= 32 && Worth(g, t.lo, t.hi)
    requires Runs(g, m, m', ran, ran', t.lo, t.hi, t.executed, t.trusted, stopped)
    ensures Settled(w, g, m0, m', log + Ran(t.lo, t.hi, t.executed, t.trusted), if t.executed then t.hi else t.lo)
  {
    if t.executed {
      PackageSettles(w, g, m0, m, m', log, t.lo, t.hi, t.trusted);
    } else {
      assert log + [] == log;
      ScratchSettles(w, g, m0, m, m', log, t.lo, t.hi);
    }
  }

  // One package on the NPU; if it is not executed its nodes stay pending.
  method RunOnNpu(r: Runtime, job: Job, begin: nat, end: nat, ghost start: Begun, ghost ts: seq<Try>)
    returns (executed: bool, stop: Option<Status>, ghost t: Try)
    requires r.Valid() && begin < end <= |job.g.nodes| && AllTriesOk(ts)
    requires Progress(r.world, job, start, ts, LogOf(ts) + Commits(CursorOf(ts), begin, ByCpu), begin)
    requires AllSupported(job.g, begin, end) && end - begin <= 32 && Worth(job.g, begin, end)
    modifies r, r.world, job, job.mem
    ensures r.Valid() && old(r.probed) == r.probed && old(r.available) == r.available
    ensures t.lo == begin && t.hi == end && t.executed == executed && Going(r.world, job, start, ts + [t])
    ensures stop.Some? ==> stop.value != Success
    ensures job.ends == StopEnds(old(job.ends), stop)
  {
    ghost var was, ran, tried := job.mem[..], job.ran, job.tried;
    ghost var log := LogOf(ts) + Commits(CursorOf(ts), begin, ByCpu);
    executed, stop, t := r.TryPackage(job, begin, end);
    TrySettles(r.world, job.g, start.mem, was, job.mem[..], log, ran, job.ran, t, stop.Some?);
    OneMoreTry(ts, t);
    AppendRan(start.ran, log, Ran(begin, end, executed, t.trusted));
    AppendRan(start.tried, ts, [t]);
  }

  // The nodes before the package on the CPU, other callers, and the package on the NPU.
  method TurnOnNpu(r: Runtime, job: Job, other: Job, begin: nat, end: nat, cpuBegin: nat, ghost start: Begun, ghost ts: seq<Try>)
    returns (stop: Option<Status>, executed: bool, ghost ts': seq<Try>, ghost log: seq<Commit>)
    requires r.Valid() && other != job && other.mem != job.mem && GraphOk(r.world, other.g, other.mem[..])
    requires Going(r.world, job, start, ts) && cpuBegin == CursorOf(ts) <= begin < end <= |job.g.nodes| && r.probed
    requires AllSupported(job.g, begin, end) && end - begin <= 32 && Worth(job.g, begin, end)
    modifies r, r.world, job, job.mem, other, other.mem
    ensures r.Valid() && GraphOk(r.world, other.g, other.mem[..]) && r.probed && r.available == old(r.available)
    ensures stop.None? ==> Going(r.world, job, start, ts') && CursorOf(ts') == if executed then end else begin
    ensures stop.None? ==> Spans(ts') == Spans(ts) + [(begin, end)]
    ensures stop.Some? ==> stop.value != Success && Halted(job, start, log)
    ensures job.ends == StopEnds(old(job.ends), stop)
  {
    ts', log := ts, LogOf(ts);
    var rc := RunPending(r.world, job, cpuBegin, begin, start, ts, log);
    if rc != Success {
      return Some(rc), false, ts, log;
    }
    Interfere(r, other);
    ghost var t;
    executed, stop, t := RunOnNpu(r, job, begin, end, start, ts);
    ts', log := ts + [t], LogOf(ts + [t]);
    OneMoreTry(ts, t);
    ProgressHalts(r.world, job, start, ts', log, CursorOf(ts'));
  }

  // One turn of the main loop: the next package, on the NPU if it is worth it.
  method Turn(r: Runtime, job: Job, other: Job, begin: nat, cpuBegin: nat, ghost start: Begun, ghost ts: seq<Try>)
    returns (stop: Option<Status>, end: nat, cpuBegin': nat, ghost ts': seq<Try>, ghost log: seq<Commit>)
    requires r.Valid() && other != job && other.mem != job.mem && GraphOk(r.world, other.g, other.mem[..])
    requires Going(r.world, job, start, ts) && cpuBegin == CursorOf(ts) <= begin < |job.g.nodes| && r.probed
    modifies r, r.world, job, job.mem, other, other.mem
    ensures r.Valid() && GraphOk(r.world, other.g, other.mem[..]) && r.probed && r.available == old(r.available)
    ensures stop.None? ==> begin < end <= |job.g.nodes| && cpuBegin' == CursorOf(ts') <= end && Going(r.world, job, start, ts')
    ensures stop.None? ==>
      Spans(ts) + Planned(job.g, job.mem.Length, begin) == Spans(ts') + Planned(job.g, job.mem.Length, end)
    ensures stop.Some? ==> stop.value != Success && Halted(job, start, log)
    ensures job.ends == StopEnds(old(job.ends), stop)
  {
    stop, end, cpuBegin', ts', log := None, begin, cpuBegin, ts, LogOf(ts);
    var aborted := job.AbortAsked(r.world);
    if aborted {
      ProgressHalts(r.world, job, start, ts, log, cpuBegin);
      return Some(Aborted), begin, cpuBegin, ts, log;
    }
    var supported;
    end, supported := NextPackage(job.g, begin, job.mem.Length);
    PlannedNext(job.g, job.mem.Length, begin, Spans(ts));
    if supported {
      var executed;
      stop, executed, ts', log := TurnOnNpu(r, job, other, begin, end, cpuBegin, start, ts);
      cpuBegin' := if executed then end else begin;
    }
  }

  lemma PlannedNext(g: Graph, size: nat, begin: nat, spans: seq<(nat, nat)>)
    requires begin < |g.nodes|
    ensures var end := PackageEnd(g, size, begin);
      spans + Planned(g, size, begin)
        == (if IsTried(g, size, begin) then spans + [(begin, end)] else spans) + Planned(g, size, end)
  {
    var end := PackageEnd(g, size, begin);
    if IsTried(g, size, begin) {
      AppendRan(spans, [(begin, end)], Planned(g, size, end));
    } else {
      assert [] + Planned(g, size, end) == Planned(g, size, end);
    }
  }

  // The main loop, and the nodes left for the CPU at the end.
  method RunPackages(r: Runtime, job: Job, other: Job, ghost start: Begun)
    returns (rc: Status, ghost ts: seq<Try>, ghost log: seq<Commit>)
    requires r.Valid() && other != job && other.mem != job.mem && GraphOk(r.world, other.g, other.mem[..]) && r.probed
    requires Progress(r.world, job, start, [], [], 0)
    modifies r, r.world, job, job.mem, other, other.mem
    ensures r.Valid() && r.probed && r.available == old(r.available)
    ensures rc == Success ==> Progress(r.world, job, start, ts, log, |job.g.nodes|)
    ensures rc == Success ==> AllTriesOk(ts) && Spans(ts) == Planned(job.g, job.mem.Length, 0)
    ensures rc == Success ==> log == LogOf(ts) + Commits(CursorOf(ts), |job.g.nodes|, ByCpu)
    ensures rc != Success ==> Halted(job, start, log)
    ensures job.ends == Ends(old(job.ends), rc)
  {
    ts, log := [], [];
    var begin: nat := 0;
    var cpuBegin: nat := 0;
    assert Spans(ts) + Planned(job.g, job.mem.Length, 0) == Planned(job.g, job.mem.Length, 0);
    while begin < |job.g.nodes|
      invariant r.Valid() && GraphOk(r.world, other.g, other.mem[..]) && r.probed && r.available == old(r.available)
      invariant cpuBegin == CursorOf(ts) <= begin <= |job.g.nodes| && Going(r.world, job, start, ts)
      invariant Spans(ts) + Planned(job.g, job.mem.Length, begin) == Planned(job.g, job.mem.Length, 0)
      invariant job.ends == old(job.ends)
    {
      var stop, end;
      stop, end, cpuBegin, ts, log := Turn(r, job, other, begin, cpuBegin, start, ts);
      if stop.Some? {
        return stop.value, ts, log;
      }
      begin := end;
    }
    assert Spans(ts) + [] == Spans(ts);
    rc := RunRest(r.world, job, cpuBegin, start, ts);
    log := if rc == Success then LogOf(ts) + Commits(CursorOf(ts), |job.g.nodes|, ByCpu) else LogOf(ts);
  }

  // The nodes behind the last package that was executed.
  method RunRest(w: World, job: Job, cpuBegin: nat, ghost start: Begun, ghost ts: seq<Try>) returns (rc: Status)
    requires Going(w, job, start, ts) && cpuBegin == CursorOf(ts) <= |job.g.nodes|
    modifies w, job`ran, job`ends, job.mem
    ensures rc == Success ==>
      Progress(w, job, start, ts, LogOf(ts) + Commits(CursorOf(ts), |job.g.nodes|, ByCpu), |job.g.nodes|)
    ensures rc != Success ==> Halted(job, start, LogOf(ts))
    ensures job.ends == Ends(old(job.ends), rc)
  {
    rc := Success;
    if cpuBegin < |job.g.nodes| {
      rc := RunPending(w, job, cpuBegin, |job.g.nodes|, start, ts, LogOf(ts));
    } else {
      assert LogOf(ts) + [] == LogOf(ts);
    }
  }

  // What a call leaves on success: with the NPU in use every planned package was tried, and the CPU ran the rest;
  // otherwise the CPU ran the whole graph.
  ghost predicate Accounts(g: Graph, size: nat, inUse: bool, ts: seq<Try>, log: seq<Commit>) {
    if inUse then
      AllTriesOk(ts) && Spans(ts) == Planned(g, size, 0) && log == LogOf(ts) + Commits(CursorOf(ts), |g.nodes|, ByCpu)
    else ts == [] && log == Commits(0, |g.nodes|, ByCpu)
  }

  // The whole graph on the CPU.
  method AllOnCpu(w: World, job: Job, ghost start: Begun) returns (rc: Status, ghost log: seq<Commit>)
    requires Progress(w, job, start, [], [], 0)
    modifies w, job`ran, job`ends, job.mem
    ensures rc == Success ==> Progress(w, job, start, [], Commits(0, |job.g.nodes|, ByCpu), |job.g.nodes|)
    ensures rc != Success ==> Halted(job, start, [])
    ensures job.ends == Ends(old(job.ends), rc)
    ensures log == if rc == Success then Commits(0, |job.g.nodes|, ByCpu) else []
  {
    rc := RunPending(w, job, 0, |job.g.nodes|, start, [], []);
    assert [] + Commits(0, |job.g.nodes|, ByCpu) == Commits(0, |job.g.nodes|, ByCpu);
    log := if rc == Success then Commits(0, |job.g.nodes|, ByCpu) else [];
  }

  /**
   HarmonyNpuCompute, from the moment it holds the lock for the first time.  The ranges it ran follow one another
   from the first node on, whatever the outcome: no node is settled twice.  If it succeeds they cover the graph, and
   every value that matters is the one the CPU alone computes, whatever other callers did in between.  The NPU is in
   use exactly if it is switched on and there is one and the graph is worth it: then every planned package is tried,
   and otherwise the CPU computes the whole graph.  It succeeds exactly if the CPU never failed and the callback never
   asked for an end, and returns at the first time either happens.
   */
  method HarmonyNpuCompute(r: Runtime, job: Job, other: Job) returns (rc: Status, ghost ts: seq<Try>, ghost log: seq<Commit>)
    requires r.Valid() && other != job && other.mem != job.mem
    requires GraphOk(r.world, other.g, other.mem[..]) && GraphOk(r.world, job.g, job.mem[..])
    modifies r, r.world, job, job.mem, other, other.mem
    ensures r.Valid()
    ensures old(r.enabled) ==> r.probed && (old(r.probed) ==> r.available == old(r.available))
    ensures job.ran == old(job.ran) + log
    ensures rc == Success ==> job.tried == old(job.tried) + ts
    ensures rc == Success ==> Settled(r.world, job.g, old(job.mem[..]), job.mem[..], log, |job.g.nodes|)
    ensures var inUse := old(r.enabled) && r.available && Worth(job.g, 0, |job.g.nodes|);
      && (rc == Success ==> Accounts(job.g, job.mem.Length, inUse, ts, log))
      && (rc != Success && !inUse ==> log == [])
    ensures rc != Success ==> Consecutive(log)
    ensures job.ends == Ends(old(job.ends), rc)
  {
    ghost var start := Begun(job.ran, job.tried, job.mem[..]);
    ts, log := [], [];
    assert Progress(r.world, job, start, [], [], 0);
    var found := false;
    if r.enabled {
      found := r.Probe();
    }
    if !found {
      rc, log := AllOnCpu(r.world, job, start);
      return;
    }
    var worth := WorthTrying(job.g, 0, |job.g.nodes|);
    if !worth {
      Interfere(r, other);
      r.cpuGraphs := r.cpuGraphs + 1;
      rc, log := AllOnCpu(r.world, job, start);
      return;
    }
    rc, ts, log := RunPackages(r, job, other, start);
  }

  // What the caller gets: every output node has its value, and tensors that are not nodes are as before.
  lemma SettledValues(w: World, g: Graph, m0: seq<Value>, m: seq<Value>, log: seq<Commit>, x: Id)
    requires Settled(w, g, m0, m, log, |g.nodes|) && x < |m|
    ensures x in g.nodes && g.tensor(x).output ==> m[x] == Run(g, m0, 0, |g.nodes|)[x]
    ensures x !in g.nodes ==> m[x] == m0[x]
  {
    if x !in g.nodes {
      RunElsewhere(g, m0, 0, |g.nodes|, x);
      assert Live(g, x, |g.nodes|);
    } else if g.tensor(x).output {
      assert Live(g, x, |g.nodes|);
    }
  }

  // A node read by a later range had the CPU's value when that range began.
  lemma ReadValues(w: World, g: Graph, m0: seq<Value>, m: seq<Value>, log: seq<Commit>, c: nat, k: nat)
    requires Settled(w, g, m0, m, log, c) && c < |g.nodes| && k < |At(g, c).srcs|
    ensures m[At(g, c).srcs[k]] == Run(g, m0, 0, c)[At(g, c).srcs[k]]
  {
    ReadsLive(g, |m|, c, k);
  }
}
