# Shipping-tracking automation: action-trace reduction and failure-address retry

This project models the two pieces of real logic in `browser_auto.py`, the
script that drives an LLM-controlled browser agent to fetch voyage and
arrival data from a carrier's tracking site:

- **Action-trace reduction** (`save_actions`). After a successful fresh run,
  the agent's recorded actions become a replayable trace. Each recorded
  action is a dictionary in insertion order. One key names the action and
  maps to its parameters. The agent framework may add an
  `interacted_element` key that cannot be serialised. Each action becomes at
  most one single-entry dictionary `{name: params}`, built from the first key
  that is not `interacted_element`. Module `ActionTrace` (`action_trace.dfy`):
  - a dictionary is a sequence of `Entry(name, params)` in insertion order;
  - the parameters are an opaque type parameter;
  - `Reduce` is the specification of the whole reduction;
  - `SaveActions` is the source's nested loop with its `break`, proved equal
    to `Reduce`.
- **Failure-address retry** (`retry_hook`). After every agent step, the page
  address is lower-cased and searched for "error", "failed", "invalid",
  "incorrect" and "unable". On a match, the hook adds the instruction "Retry
  to complete the original task" to the agent's pending tasks.
  - Module `FailureUrl` (`failure_url.dfy`) holds the pure test.
  - Module `RetryHook` (`retry_hook.dfy`) holds the agent's task list as a
    class field and the hook as a method on it.
- `Wrappers` (`wrappers.dfy`) holds the `Option` datatype.

The comment at browser_auto.py:101 describes each recorded action as a
dictionary with one key. The docstring at browser_auto.py:94-95 promises the
saved format: a list of dictionaries, each holding a single action name as
its key. The loop at `browser_auto.py:99-107` accepts any dictionary as
input. It skips the leading `interacted_element` entries, keeps the first
other key and ignores every later key. An action with no other key
contributes nothing. The model follows the loop.

## Model

| member | source | states |
|---|---|---|
| `ActionTrace.FirstAction` | browser_auto.py:102-107 | the inner scan's stopping entry: None exactly when every key is `interacted_element` (or there are none); otherwise an entry of the action, not `interacted_element`, preceded only by `interacted_element` entries |
| `ActionTrace.FirstActionAt` | browser_auto.py:102-107 | the first non-`interacted_element` entry is unique: the entry at the first position whose key differs is the one picked |
| `ActionTrace.Emit` | browser_auto.py:102-106 | one action contributes at most one record; it contributes none exactly when it is empty or holds only `interacted_element`; a record has one key, not `interacted_element`, and is an entry of the action |
| `ActionTrace.EmitKeepsParams` | browser_auto.py:105-106 | the emitted record maps the emitted key to the same parameters the original action maps it to, and has that one key only |
| `ActionTrace.GetAt` | browser_auto.py:102 | dictionary lookup returns the value of the first entry holding the key |
| `ActionTrace.Reduce` | browser_auto.py:97-107 | the reduced trace is no longer than the recorded one, and every record has exactly one key, which is not `interacted_element` |
| `ActionTrace.SaveActions` | browser_auto.py:97-107 | the nested loop with its `break` builds exactly `Reduce` of the recorded actions |
| `ActionTrace.ReduceAppend` | browser_auto.py:99-107 | reducing a concatenation is the concatenation of the reductions, so actions are processed independently and in order |
| `ActionTrace.ReduceSingle` | browser_auto.py:99-107 | a one-action trace reduces to what that action emits |
| `ActionTrace.SourcesExactly` | browser_auto.py:99-107 | the positions that contribute records are strictly increasing and are exactly the actions holding some key other than `interacted_element` |
| `ActionTrace.ReduceSources` | browser_auto.py:99-107 | the k-th output record is `{name: params}` of the first non-`interacted_element` entry of the k-th contributing action, so the relative order is kept and no action contributes twice |
| `ActionTrace.ReduceIdempotent` | browser_auto.py:94-95 | a reduced trace is already in the saved format: reducing it again changes nothing |
| `FailureUrl.Lower` | browser_auto.py:77 | lower-casing keeps the length and folds each character on its own |
| `FailureUrl.Contains` | browser_auto.py:77 | the substring search is true exactly when the substring occurs at some position |
| `FailureUrl.AnyOccurs` | browser_auto.py:77 | `any(...)` over the indicators is true exactly when some indicator occurs |
| `FailureUrl.IsFailureUrl` | browser_auto.py:76-77 | an address is a failure address exactly when one of the five indicators occurs in its lower-cased form |
| `FailureUrl.FailureIgnoresCase` | browser_auto.py:77 | ASCII upper- or lower-casing the address first does not change the verdict |
| `FailureUrl.FailureSurvivesExtension` | browser_auto.py:77 | an indicator may sit anywhere: a failure address stays one whatever text is put before or after it |
| `FailureUrl.IndicatorIsFailure` | browser_auto.py:76-77 | each of the five indicators, in lower case or in capitals, is a failure address on its own |
| `FailureUrl.ShortUrlIsNoFailure` | browser_auto.py:76-77 | no address shorter than five characters is a failure address |
| `FailureUrl.CapitalisedErrorPage` | browser_auto.py:77 | any address ending in "ERROR" is a failure address |
| `RetryHook.AfterHook` | browser_auto.py:77-80 | one hook call keeps the pending tasks in front and adds exactly one retry instruction when the address is a failure address, and nothing otherwise |
| `RetryHook.AfterStepsAddsRetries` | browser_auto.py:156-160 | over a run of at most 20 steps, the hook adds one retry instruction per failure address and nothing else, so at most 20 instructions; the fresh-run branch at browser_auto.py:184-188 runs the same hooks under the same budget |
| `RetryHook.Agent.AddNewTask` | browser_auto.py:80 | adding a task appends it to the end of the pending tasks |
| `RetryHook.Agent.RetryHook` | browser_auto.py:72-80 | the hook changes the agent's tasks exactly as `AfterHook` says, given the current page address |

## Left out

- The JSON write of the reduced trace (browser_auto.py:109-110) is file I/O. `SaveActions` returns the list it would write.
- `anti_detection_hook` (browser_auto.py:40-53) uses random delays, `asyncio.sleep` and mouse moves. Randomness, time and browser I/O have no deterministic behaviour to state.
- `fetch_hmm` (browser_auto.py:113-199) is left out. It builds prompts, checks and reads the trace file, and runs the external `browser_use.Agent` with the `ChatGoogle` model. It also has a catch-all `except` that prints and returns nothing. All of this is I/O or calls into libraries whose behaviour is not visible here.
- Reading the page address through `agent.browser_session.get_current_page()` (browser_auto.py:72-73) is a foreign async call. `RetryHook.Agent.RetryHook` takes the address as a parameter.
- The notice printed on a failure (browser_auto.py:78) is console output.
- Loading the API key, the Windows event-loop policy, `main` and the `__main__` block (browser_auto.py:26-34, 201-226) are process plumbing.
- `FailureUrl.Lower`: does not model Python's full Unicode `str.lower()`. It folds only ASCII 'A'-'Z'. The verdict is the same either way: the only non-ASCII characters whose Unicode lower case holds an ASCII letter are 'İ' (U+0130, lowering to "i" plus a combining dot) and the Kelvin sign (U+212A, lowering to "k"), and neither can complete an indicator.
- `FailureUrl.Upper`: is ASCII upper-casing only, not Python's `str.upper()`. It is used only to state case-insensitivity. Under full Unicode upper-casing the statement would be false: 'faıled' (dotless ı, U+0131) is not a failure address, while its Unicode upper case 'FAILED' is.
- `RetryHook.Agent`: models only the agent's list of pending tasks. Planning, stepping and the step loop itself belong to the external agent library. `RetryHook.AfterSteps` stands for the library calling the hook once per step.
- `RetryHook.Agent.constructor`, `RetryHook.Agent.AddNewTask`: stand for the `browser_use` calls `Agent(task=...)` (browser_auto.py:147-154, 179-182) and `agent.add_new_task` (browser_auto.py:80). Their real effect is not visible in this repository. They are abstracted as an agent holding a one-task list and an append to that list.
- Dictionary keys are strings and parameter values are opaque. The model does not describe JSON-serialisability of the parameters.
