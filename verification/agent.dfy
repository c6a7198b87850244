/**
 * The taxi agent as an object: it owns the action-value table, grows it
 * lazily on lookup and updates one cell of it in place per learning step.
 * The random draws the agent makes are parameters here.
 */
module TaxiAgent {
  import opened EpsilonGreedy
  import opened ExpectedSarsa

  class Agent {
    /** The number of actions. */
    const nA: nat
    /** Exploration rate, discount factor and learning rate. */
    const eps: real
    const gamma: real
    const alpha: real
    /** The action-value table `Q`. */
    var Q: Table

    /** The object invariant: every row of `Q` has one value per action. */
    ghost predicate Valid()
      reads this
    {
      nA > 0 && RowsHaveLength(Q, nA)
    }

    /** The hyperparameters as one value. */
    function Settings(): Config
    {
      Config(nA, eps, gamma, alpha)
    }

    /** A new agent: an empty table and the fixed hyperparameters. */
    constructor (nA: nat := 6)
      requires nA > 0
      ensures Valid() && Q == map[]
      ensures this.nA == nA && eps == 0.001 && gamma == 1.0 && alpha == 0.1
      ensures Settings() == DefaultConfig(nA)
    {
      this.nA := nA;
      eps := 0.001;
      gamma := 1.0;
      alpha := 0.1;
      Q := map[];
    }

    /** `self.Q[state]`: the row of `state`, inserted as zeros when missing. */
    method GetOrInsert(state: int) returns (row: seq<real>)
      requires Valid()
      modifies this
      ensures Valid()
      ensures row == old(RowOf(Q, state, nA))
      ensures Q == Touch(old(Q), state, nA)
    {
      if state !in Q {
        Q := Q[state := Zeros(nA)];
      }
      row := Q[state];
    }

    /**
     * `select_action`, with the uniform draw `u` of `random.random()` and the
     * uniformly picked action `pick` of `np.random.choice` as parameters: the
     * greedy action when `u > eps`, else `pick`. Only the greedy branch looks
     * the state up, and so only it may insert a row.
     */
    method SelectAction(state: int, u: real, pick: nat) returns (action: nat)
      requires Valid() && pick < nA
      modifies this
      ensures Valid()
      ensures action < nA
      ensures u > eps ==> action == ArgMax(old(RowOf(Q, state, nA))) && Q == Touch(old(Q), state, nA)
      ensures u <= eps ==> action == pick && Q == old(Q)
    {
      if u > eps {
        var row := GetOrInsert(state);
        action := ArgMax(row);
      } else {
        action := pick;
      }
    }

    /**
     * `step`: the expected-SARSA update of the cell `Q[state][action]`,
     * with the target computed from the table as it was before the call.
     */
    method Step(state: int, action: nat, reward: real, nextState: int, done: bool)
      requires Valid() && action < nA
      modifies this
      ensures Valid()
      ensures Q == StepTable(old(Q), Settings(), state, action, reward, nextState, done)
    {
      ghost var q0 := Q;
      var target := reward;
      if !done {
        var next := GetOrInsert(nextState);
        target := target + gamma * Dot(Probs(next, eps), next);
      }
      assert target == Target(reward, done, RowOf(q0, nextState, nA), Settings());
      var row := GetOrInsert(state);
      StepTableAfterLookups(q0, Settings(), state, action, reward, nextState, done, row, target);
      Q := Q[state := row[action := Update(row[action], target, alpha)]];
    }
  }

  /** A fresh six-action agent learning from one transition, ending the episode or not. */
  method FreshAgentScenario()
  {
    var agent := new Agent();
    assert agent.nA == 6;
    agent.Step(0, 2, 1.0, 1, true);
    StepTableCell(map[], DefaultConfig(6), 0, 2, 1.0, 1, true);
    assert agent.Q[0] == [0.0, 0.0, 0.1, 0.0, 0.0, 0.0];
    assert agent.Q.Keys == {0};

    var other := new Agent(6);
    other.Step(0, 2, 1.0, 1, false);
    StepTableCell(map[], DefaultConfig(6), 0, 2, 1.0, 1, false);
    ZeroRowTargetIsReward(1.0, false, DefaultConfig(6));
    assert other.Q[0] == agent.Q[0];
    assert other.Q[1] == Zeros(6);
  }
}
