/**
 * The action-value table of the expected-SARSA agent and its update rule, as
 * values: the table is a map from state to a row of `nA` action values that a
 * lookup of a missing state fills with zeros (the `defaultdict` behaviour),
 * and one learning step rewrites exactly one cell of it.
 */
module ExpectedSarsa {
  import opened EpsilonGreedy

  /** States are integer keys; each row holds one value per action. */
  type Table = map<int, seq<real>>

  /** The agent's hyperparameters: action count, exploration rate, discount, learning rate. */
  datatype Config = Config(nA: nat, eps: real, gamma: real, alpha: real)

  /** The hyperparameters the agent is constructed with, for `nA` actions. */
  function DefaultConfig(nA: nat): Config
  {
    Config(nA, 0.001, 1.0, 0.1)
  }

  /** The row a missing state is created with: `np.zeros(nA)`. */
  function Zeros(n: nat): (r: seq<real>)
    ensures |r| == n && forall i :: 0 <= i < n ==> r[i] == 0.0
  {
    Const(n, 0.0)
  }

  /** Every row of the table has one entry per action. */
  ghost predicate RowsHaveLength(q: Table, n: nat)
  {
    forall s :: s in q ==> |q[s]| == n
  }

  /** `Q[s]` as the `defaultdict` returns it: the stored row, or a fresh zero row. */
  function RowOf(q: Table, s: int, n: nat): (r: seq<real>)
    requires RowsHaveLength(q, n)
    ensures |r| == n
  {
    if s in q then q[s] else Zeros(n)
  }

  /** The table after `Q[s]` has been looked up: a missing `s` now holds a zero row. */
  function Touch(q: Table, s: int, n: nat): (r: Table)
    requires RowsHaveLength(q, n)
    ensures RowsHaveLength(r, n)
    ensures r.Keys == q.Keys + {s}
    ensures forall t :: t in q ==> r[t] == q[t]
    ensures s !in q ==> r[s] == Zeros(n)
  {
    if s in q then q else q[s := Zeros(n)]
  }

  /**
   * The one-step target: the reward alone at the end of an episode, otherwise
   * the reward plus the discounted expected value of the next state's row
   * under the epsilon-greedy policy derived from that row.
   */
  function Target(reward: real, done: bool, next: seq<real>, c: Config): (t: real)
    requires |next| > 0
  {
    if done then reward else reward + c.gamma * ExpectedValue(next, c.eps)
  }

  /** The temporal-difference update of one value towards `target`. */
  function Update(v: real, target: real, alpha: real): (r: real)
  {
    v + alpha * (target - v)
  }

  /**
   * The table after one learning step. Reading `Q[next_state]` (when the
   * episode goes on) and `Q[state]` inserts their zero rows; then the cell
   * `Q[state][action]` moves towards the target, computed from the table
   * before the step.
   */
  function StepTable(q: Table, c: Config, state: int, action: nat, reward: real, nextState: int, done: bool): (r: Table)
    requires c.nA > 0 && RowsHaveLength(q, c.nA) && action < c.nA
    ensures RowsHaveLength(r, c.nA)
  {
    var t := if done then q else Touch(q, nextState, c.nA);
    var row := RowOf(q, state, c.nA);
    var target := Target(reward, done, RowOf(q, nextState, c.nA), c);
    t[state := row[action := Update(row[action], target, c.alpha)]]
  }

  /**
   * The step in the order the agent performs it: look the next state up
   * (unless done), look the current state up, then write the one cell.
   */
  lemma {:induction false} StepTableAfterLookups(q: Table, c: Config, state: int, action: nat, reward: real,
                                                 nextState: int, done: bool, row: seq<real>, target: real)
    requires c.nA > 0 && RowsHaveLength(q, c.nA) && action < c.nA
    requires row == RowOf(q, state, c.nA) && target == Target(reward, done, RowOf(q, nextState, c.nA), c)
    ensures var t := if done then q else Touch(q, nextState, c.nA);
      && RowOf(t, state, c.nA) == row
      && Touch(t, state, c.nA)[state := row[action := Update(row[action], target, c.alpha)]]
         == StepTable(q, c, state, action, reward, nextState, done)
  {
  }

  /**
   * What a step leaves alone: keys are only added (`state` always, `nextState`
   * unless the episode is done), rows of other states keep their values, and
   * every row the step creates other than `state`'s is all zeros.
   */
  lemma {:induction false} StepTableFrame(q: Table, c: Config, state: int, action: nat, reward: real, nextState: int, done: bool)
    requires c.nA > 0 && RowsHaveLength(q, c.nA) && action < c.nA
    ensures var r := StepTable(q, c, state, action, reward, nextState, done);
      && r.Keys == q.Keys + {state} + (if done then {} else {nextState})
      && (forall s :: s in q && s != state ==> r[s] == q[s])
      && (forall s :: s in r && s !in q && s != state ==> r[s] == Zeros(c.nA))
  {
  }

  /**
   * What a step changes: in the row of `state`, only the cell of `action`,
   * which takes the temporal-difference update towards the target.
   */
  lemma {:induction false} StepTableCell(q: Table, c: Config, state: int, action: nat, reward: real, nextState: int, done: bool)
    requires c.nA > 0 && RowsHaveLength(q, c.nA) && action < c.nA
    ensures var r := StepTable(q, c, state, action, reward, nextState, done);
      && state in r
      && (forall j :: 0 <= j < c.nA && j != action ==> r[state][j] == RowOf(q, state, c.nA)[j])
      && r[state][action]
         == Update(RowOf(q, state, c.nA)[action], Target(reward, done, RowOf(q, nextState, c.nA), c), c.alpha)
  {
  }

  /** At the end of an episode the target is exactly the reward. */
  lemma TerminalTargetIsReward(reward: real, next: seq<real>, c: Config)
    requires |next| > 0
    ensures Target(reward, true, next, c) == reward
  {
  }

  /** When the next state's row is still all zeros the target is the reward too. */
  lemma {:induction false} ZeroRowTargetIsReward(reward: real, done: bool, c: Config)
    requires c.nA > 0
    ensures Target(reward, done, Zeros(c.nA), c) == reward
  {
    ExpectedValueOfZeros(c.nA, c.eps);
  }

  /**
   * A terminal step moves the cell towards the reward alone: the gap between
   * the cell and the reward is multiplied by `1 - alpha`.
   */
  lemma {:induction false} TerminalStepShrinksGap(q: Table, c: Config, state: int, action: nat, reward: real, nextState: int)
    requires c.nA > 0 && RowsHaveLength(q, c.nA) && action < c.nA
    ensures RowOf(StepTable(q, c, state, action, reward, nextState, true), state, c.nA)[action] - reward
         == (1.0 - c.alpha) * (RowOf(q, state, c.nA)[action] - reward)
  {
    StepTableCell(q, c, state, action, reward, nextState, true);
  }

  /**
   * A terminal step never looks at the next state, so which one it names
   * makes no difference to the table.
   */
  lemma {:induction false} TerminalStepIgnoresNextState(q: Table, c: Config, state: int, action: nat, reward: real,
                                                        next1: int, next2: int)
    requires c.nA > 0 && RowsHaveLength(q, c.nA) && action < c.nA
    ensures StepTable(q, c, state, action, reward, next1, true) == StepTable(q, c, state, action, reward, next2, true)
  {
  }

  /**
   * `k` terminal steps on the same cell with the same reward. The next state
   * is written as `state` only because a terminal step ignores it
   * (`TerminalStepIgnoresNextState`).
   */
  function RepeatTerminal(q: Table, c: Config, state: int, action: nat, reward: real, k: nat): (r: Table)
    requires c.nA > 0 && RowsHaveLength(q, c.nA) && action < c.nA
    ensures RowsHaveLength(r, c.nA)
  {
    if k == 0 then q
    else StepTable(RepeatTerminal(q, c, state, action, reward, k - 1), c, state, action, reward, state, true)
  }

  function Pow(x: real, k: nat): (r: real)
  {
    if k == 0 then 1.0 else x * Pow(x, k - 1)
  }

  /** The value reached from `v` by `k` updates towards the same target. */
  function Approach(v: real, target: real, alpha: real, k: nat): (r: real)
  {
    if k == 0 then v else Update(Approach(v, target, alpha, k - 1), target, alpha)
  }

  /** Each update shrinks the gap to the target by `1 - alpha`, so `k` of them by `(1 - alpha)^k`. */
  lemma {:induction false} ApproachIsGeometric(v: real, target: real, alpha: real, k: nat)
    ensures Approach(v, target, alpha, k) - target == Pow(1.0 - alpha, k) * (v - target)
  {
    if k > 0 {
      var before := Approach(v, target, alpha, k - 1);
      ApproachIsGeometric(v, target, alpha, k - 1);
      UpdateScalesGap(before, target, alpha, Pow(1.0 - alpha, k - 1), v - target);
    }
  }

  /** One update multiplies a gap of `p * g` to the target by `1 - alpha`. */
  lemma UpdateScalesGap(v: real, target: real, alpha: real, p: real, g: real)
    requires v - target == p * g
    ensures Update(v, target, alpha) - target == ((1.0 - alpha) * p) * g
  {
    assert Update(v, target, alpha) - target == (1.0 - alpha) * (v - target);
  }

  /**
   * Repeated terminal steps on one cell with a constant reward follow
   * `Approach`: after `k` of them the cell holds the value `k` updates
   * towards the reward reach from where it started.
   */
  lemma {:induction false} RepeatedTerminalSteps(q: Table, c: Config, state: int, action: nat, reward: real, k: nat)
    requires c.nA > 0 && RowsHaveLength(q, c.nA) && action < c.nA
    ensures RowOf(RepeatTerminal(q, c, state, action, reward, k), state, c.nA)[action]
         == Approach(RowOf(q, state, c.nA)[action], reward, c.alpha, k)
  {
    if k > 0 {
      var before := RepeatTerminal(q, c, state, action, reward, k - 1);
      RepeatedTerminalSteps(q, c, state, action, reward, k - 1);
      StepTableCell(before, c, state, action, reward, state, true);
    }
  }

  /**
   * Convergence of repeated terminal steps: the gap between the cell and the
   * reward after `k` steps is the initial gap times `(1 - alpha)^k`.
   */
  lemma {:induction false} RepeatedTerminalStepsConverge(q: Table, c: Config, state: int, action: nat, reward: real, k: nat)
    requires c.nA > 0 && RowsHaveLength(q, c.nA) && action < c.nA
    ensures RowOf(RepeatTerminal(q, c, state, action, reward, k), state, c.nA)[action] - reward
         == Pow(1.0 - c.alpha, k) * (RowOf(q, state, c.nA)[action] - reward)
  {
    var v := RowOf(q, state, c.nA)[action];
    var w := RowOf(RepeatTerminal(q, c, state, action, reward, k), state, c.nA)[action];
    assert w == Approach(v, reward, c.alpha, k) by {
      RepeatedTerminalSteps(q, c, state, action, reward, k);
    }
    ApproachIsGeometric(v, reward, c.alpha, k);
  }
}
