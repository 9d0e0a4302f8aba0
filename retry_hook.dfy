/**
  The effect of `retry_hook` in browser_auto.py on the running agent: after
  a step whose page address is a failure address, one fixed retry
  instruction is added to the agent's pending tasks. The agent itself is
  external; only its task list is modelled, and the page address is a
  parameter.
*/
module RetryHook {
  import opened FailureUrl

  /** The instruction the hook adds. */
  const RetryInstruction: string := "Retry to complete the original task"

  /** The step budget the agent runs under. */
  const MaxSteps: nat := 20

  /**
    The pending tasks after one hook call: the old tasks are kept as they
    were, and one retry instruction follows exactly when the address is a
    failure address.
  */
  function AfterHook(tasks: seq<string>, url: string): (r: seq<string>)
    ensures |r| == |tasks| + (if IsFailureUrl(url) then 1 else 0)
    ensures r[..|tasks|] == tasks
    ensures forall i :: |tasks| <= i < |r| ==> r[i] == RetryInstruction
  {
    if IsFailureUrl(url) then tasks + [RetryInstruction] else tasks
  }

  /** The number of failure addresses among the pages seen after each step. */
  function CountFailures(urls: seq<string>): (n: nat)
    ensures n <= |urls|
  {
    if urls == [] then 0
    else CountFailures(urls[..|urls| - 1]) + (if IsFailureUrl(urls[|urls| - 1]) then 1 else 0)
  }

  /** The pending tasks after the hook has run once per step, in order. */
  function AfterSteps(tasks: seq<string>, urls: seq<string>): seq<string>
  {
    if urls == [] then tasks
    else AfterHook(AfterSteps(tasks, urls[..|urls| - 1]), urls[|urls| - 1])
  }

  /**
    Over a run, the hook adds one retry instruction per failure address and
    nothing else, and keeps the original tasks in front; with the step
    budget the run adds at most MaxSteps instructions.
  */
  lemma {:induction false} AfterStepsAddsRetries(tasks: seq<string>, urls: seq<string>)
    ensures |AfterSteps(tasks, urls)| == |tasks| + CountFailures(urls)
    ensures AfterSteps(tasks, urls)[..|tasks|] == tasks
    ensures forall i :: |tasks| <= i < |AfterSteps(tasks, urls)| ==> AfterSteps(tasks, urls)[i] == RetryInstruction
    ensures |urls| <= MaxSteps ==> |AfterSteps(tasks, urls)| <= |tasks| + MaxSteps
  {
    if urls != [] {
      var prev := AfterSteps(tasks, urls[..|urls| - 1]);
      AfterStepsAddsRetries(tasks, urls[..|urls| - 1]);
      assert AfterSteps(tasks, urls) == AfterHook(prev, urls[|urls| - 1]);
      assert AfterSteps(tasks, urls)[..|prev|] == prev;
    }
  }

  /** The agent, as far as the hook sees it: its list of pending tasks. */
  class Agent {
    var tasks: seq<string>

    /** An agent created for one task. */
    constructor (task: string)
      ensures tasks == [task]
    {
      tasks := [task];
    }

    /** `agent.add_new_task(task)`: the task joins the end of the list. */
    method AddNewTask(task: string)
      modifies this
      ensures tasks == old(tasks) + [task]
    {
      tasks := tasks + [task];
    }

    /**
      The hook: test the current page address and add the retry instruction
      when it is a failure address; otherwise leave the tasks alone.
    */
    method RetryHook(currentUrl: string)
      modifies this
      ensures tasks == AfterHook(old(tasks), currentUrl)
    {
      if IsFailureUrl(currentUrl) {
        AddNewTask(RetryInstruction);
      }
    }
  }
}
