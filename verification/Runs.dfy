/** Building runs of the whole system, step by step. */
module Runs {
  import opened Bytes
  import opened Pieces
  import opened Swarm
  import opened Ownership
  import D = DiskModel
  import M = ManagerModel

  ghost function Start(c: Config, flat: seq<byte>): Swarm
    requires Valid(c.tf)
  {
    Swarm(M.NewManager(PieceCount(c.tf)), D.Disk(flat, [], map[], 0, [], false, false, D.Running), [], 0)
  }

  lemma Extended(c: Config, states: seq<Swarm>, actions: seq<Action>, s': Swarm, a: Action)
    returns (states': seq<Swarm>, actions': seq<Action>)
    requires Run(c, states, actions)
    requires var s := states[|actions|]; Tracked(c, s) ==> Step(c, s, s', a)
    ensures Run(c, states', actions') && |actions'| == |actions| + 1
    ensures states'[0] == states[0] && states'[|actions'|] == s'
    ensures NoPriorities(actions) && !a.SetPriority? ==> NoPriorities(actions')
  {
    states', actions' := states + [s'], actions + [a];
    ExtendRun(c, states, actions, s', a);
  }

  lemma StartRun(c: Config, flat: seq<byte>, n: nat) returns (states: seq<Swarm>, actions: seq<Action>)
    requires Valid(c.tf)
    ensures Run(c, states, actions) && |actions| == n && states[0] == Start(c, flat)
    ensures states[n] == Start(c, flat).(workers := seq(n, _ => Idle))
    ensures NoPriorities(actions)
  {
    if n == 0 {
      states, actions := [Start(c, flat)], [];
    } else {
      states, actions := StartRun(c, flat, n - 1);
      var last := states[n - 1];
      var next := last.(workers := last.workers + [Idle]);
      assert M.Registered(last.m, []) == last.m;
      assert next.workers == seq(n, _ => Idle);
      states, actions := Extended(c, states, actions, next, Join([]));
    }
  }
}
