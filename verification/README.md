# Expected-SARSA taxi agent

This project models the learning agent of the taxi lab in Dafny. The agent
keeps an action-value table `Q`. The table maps each state to a row with one
value per action, and a state is given a row of zeros the first time it is
looked up.

The agent has two operations:

- `select_action` picks an action epsilon-greedily.
- `step` applies the expected-SARSA update. It moves one cell,
  `Q[state][action]`, towards the reward plus the discounted expectation of
  the next state's row under the epsilon-greedy policy. When the episode has
  ended, the target is the reward alone.

The project has three modules:

- `EpsilonGreedy` (policy.dfy) holds the pure parts:
  - the first-maximum argmax;
  - the probability vector of `get_probs`;
  - the expected value of a row under that vector, with its properties.
- `ExpectedSarsa` (table.dfy) models the table as a map value:
  - the lazy insertion of zero rows;
  - the one-step target and the cell update;
  - `StepTable`, the specification of a whole learning step;
  - lemmas about what a step changes, what it keeps, and how repeated
    terminal steps converge.
- `TaxiAgent` (agent.dfy) holds the agent itself. `Agent` is a class whose
  table field is updated in place. Its methods are proved against the
  functions of `ExpectedSarsa`.

## Model

| member | source | states |
|---|---|---|
| TaxiAgent.Agent.constructor | lab-taxi/agent.py:7-18 | A new agent has an empty table and `nA` actions, with `nA` defaulting to 6. Its hyperparameters are `eps = 0.001`, `gamma = 1.0` and `alpha = 0.1` |
| ExpectedSarsa.Touch | lab-taxi/agent.py:15 | Looking a state up adds that state and no other key. Existing rows keep their values, a missing state gets a row of `nA` zeros, and every row keeps length `nA` |
| TaxiAgent.Agent.GetOrInsert | lab-taxi/agent.py:15 | `Q[state]` returns the stored row, or zeros if there is none. The table becomes the old table with `state` inserted, and every row keeps length `nA` |
| EpsilonGreedy.ArgMax | lab-taxi/agent.py:61 | The chosen index holds a maximum of the row, and no earlier index holds a value that large (numpy's tie rule) |
| EpsilonGreedy.FirstMaxFrom | lab-taxi/agent.py:61 | The left-to-right scan that moves only to a strictly larger entry ends at the first maximum |
| EpsilonGreedy.ArgMaxIsTheFirstMax | lab-taxi/agent.py:61 | An index is the first maximum exactly when it is the argmax, in both directions |
| EpsilonGreedy.Probs | lab-taxi/agent.py:57-63 | The vector has one entry per action. The argmax entry is `eps/nA + (1 - eps)` and every other entry is `eps/nA` |
| EpsilonGreedy.GreedySumToOne | lab-taxi/agent.py:59-61 | Spreading `eps/nA` over all actions and adding `1 - eps` to one of them sums to exactly 1 |
| EpsilonGreedy.ProbsSumToOne | lab-taxi/agent.py:57-63 | The vector of `get_probs` always sums to exactly 1 |
| EpsilonGreedy.ProbsIsDistribution | lab-taxi/agent.py:57-63 | For `0 <= eps <= 1`, every entry lies between `eps/nA` and 1, and the entries sum to 1 |
| EpsilonGreedy.GreedyExpectation | lab-taxi/agent.py:52 | The expectation of a row under the distribution that favours action `k` is `eps/nA * sum(row) + (1 - eps) * row[k]` |
| EpsilonGreedy.ExpectedValueFormula | lab-taxi/agent.py:51-52 | `sum(probs * Q[next_state])` equals `eps/nA` times the row's sum plus `1 - eps` times the row's maximum |
| EpsilonGreedy.ExpectedValueOfZeros | lab-taxi/agent.py:15 | A fresh zero row has expected value 0 |
| EpsilonGreedy.GreedyExpectedValueIsMax | lab-taxi/agent.py:51-52 | With `eps = 0`, the expectation is the row's maximum, which is the Q-learning target |
| EpsilonGreedy.ExpectedValueBetweenMeanAndMax | lab-taxi/agent.py:51-52 | For `0 <= eps <= 1`, the expectation lies between the row's mean and its maximum |
| TaxiAgent.Agent.SelectAction | lab-taxi/agent.py:20-35 | The action is always below `nA`. When the draw exceeds `eps`, the action is the argmax of the state's row and only that row may be inserted. Otherwise the action is the uniform pick and the table is unchanged |
| TaxiAgent.Agent.Step | lab-taxi/agent.py:37-55 | The new table is `StepTable` of the old table and the agent's hyperparameters, and every row keeps length `nA` |
| ExpectedSarsa.StepTableAfterLookups | lab-taxi/agent.py:50-55 | Doing the step as the code does (read `Q[next_state]` unless done, then read `Q[state]`, then write the cell) gives `StepTable`, and the row read for `state` is the one before the step |
| ExpectedSarsa.StepTableFrame | lab-taxi/agent.py:50-55 | A step only adds keys: `state` always, and `next_state` unless done. Rows of other states keep their values, and every other row it creates is all zeros |
| ExpectedSarsa.StepTableCell | lab-taxi/agent.py:49-55 | In the row of `state`, only the `action` cell changes. It becomes `old + alpha * (target - old)`, where the target is computed from the table before the step |
| ExpectedSarsa.TerminalTargetIsReward | lab-taxi/agent.py:49-50 | When the episode is done, the target is exactly the reward |
| ExpectedSarsa.ZeroRowTargetIsReward | lab-taxi/agent.py:49-52 | When the next state's row is still all zeros, the target is the reward whether or not the episode is done |
| ExpectedSarsa.TerminalStepShrinksGap | lab-taxi/agent.py:53-55 | A terminal step multiplies the gap between the cell and the reward by `1 - alpha` |
| ExpectedSarsa.TerminalStepIgnoresNextState | lab-taxi/agent.py:49-50 | A step that ends the episode gives the same table whatever next state it names |
| ExpectedSarsa.ApproachIsGeometric | lab-taxi/agent.py:53 | After `k` updates towards a fixed target, the gap to it is `(1 - alpha)^k` times the initial gap |
| ExpectedSarsa.RepeatedTerminalSteps | lab-taxi/agent.py:37-55 | After `k` terminal steps on one cell with a constant reward, the cell holds the value that `k` updates towards the reward reach |
| ExpectedSarsa.RepeatedTerminalStepsConverge | lab-taxi/agent.py:37-55 | After `k` terminal steps on one cell with a constant reward, the cell's gap to the reward is `(1 - alpha)^k` times the initial gap |

`TaxiAgent.FreshAgentScenario` has no contract. It asserts two concrete
runs of a fresh six-action agent:

- An agent built with the default action count has six actions. After a
  terminal step `(0, 2, 1.0, 1, done)`, `Q[0]` is
  `[0, 0, 0.1, 0, 0, 0]` and state 0 is the only key.
- The same step without `done` gives the same `Q[0]` and adds a zero row
  for state 1.

## Left out

- Randomness: `SelectAction` takes the draw of `random.random()` (`u`) and
  the action of `np.random.choice` (`pick`) as parameters. The model does
  not state that they are uniformly distributed.
- The `next_action = self.select_action(state)` call at the start of `step`:
  its result is never used. Its only lasting effect is that it may insert
  `Q[state]`, and the update of `Q[state][action]` always inserts that row
  anyway. So `Agent.Step` leaves the call out and its final table is the
  same. The random draws the call consumes are not modelled.
- Floating point: values are exact reals. The sums in `get_probs` and in
  the expectation have no rounding, and `eps = 0.001` is exactly one
  thousandth. NaN and infinity are not modelled. In particular, numpy's
  `argmax` returning the first NaN has no counterpart.
- Agent.constructor: requires `nA > 0`. An agent with no actions raises in
  numpy's `argmax`, and the model does not capture that.
- Agent.Step: requires `0 <= action < nA`. numpy's negative indexing and
  its IndexError on an out-of-range action are not modelled.
- State keys: states are modelled as integers. Python would accept any
  hashable value.
- The training loop that drives the agent, and the environment, are not
  part of this model.
