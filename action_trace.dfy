/**
  The reduction of a recorded agent trace into a replayable one
  (`save_actions` in browser_auto.py, without the JSON write).

  A recorded action is a Python dictionary whose keys come in insertion
  order: one key names the action and maps to its parameters, and the agent
  framework may add an `interacted_element` key carrying DOM metadata that
  cannot be serialised. A dictionary is modelled as the sequence of its
  (key, value) entries in insertion order; the parameters are left opaque
  (the type parameter P).
*/
module ActionTrace {
  import opened Wrappers

  /** One (key, value) entry of a dictionary. */
  datatype Entry<P> = Entry(name: string, params: P)

  /** A dictionary: its entries in insertion order. */
  type Dict<P> = seq<Entry<P>>

  /** The auxiliary key that the reduction drops. */
  const InteractedElement: string := "interacted_element"

  /** The keys of a dictionary, in insertion order (`d.keys()`). */
  function Keys<P>(d: Dict<P>): (ks: seq<string>)
    ensures |ks| == |d|
    ensures forall i :: 0 <= i < |d| ==> ks[i] == d[i].name
  {
    if d == [] then [] else [d[0].name] + Keys(d[1..])
  }

  /** Dictionary lookup `d.get(key)`: the value stored under `key`, if any. */
  function Get<P>(d: Dict<P>, key: string): (r: Option<P>)
    ensures r.None? <==> forall i :: 0 <= i < |d| ==> d[i].name != key
    ensures r.Some? ==> exists i :: 0 <= i < |d| && d[i] == Entry(key, r.value)
  {
    if d == [] then None
    else if d[0].name == key then Some(d[0].params)
    else Get(d[1..], key)
  }

  /**
    The entry the inner loop stops at: the first entry, in insertion order,
    whose key is not `interacted_element`; None when there is none.
  */
  function FirstAction<P>(action: Dict<P>): (r: Option<Entry<P>>)
    ensures r.None? <==> forall j :: 0 <= j < |action| ==> action[j].name == InteractedElement
    ensures r.Some? ==> r.value.name != InteractedElement
    ensures r.Some? ==> exists k :: 0 <= k < |action| && action[k] == r.value &&
                          forall j :: 0 <= j < k ==> action[j].name == InteractedElement
  {
    if action == [] then None
    else if action[0].name != InteractedElement then Some(action[0])
    else
      var rest := FirstAction(action[1..]);
      assert forall j :: 1 <= j < |action| ==> action[j] == action[1..][j - 1];
      rest
  }

  /**
    What one recorded action contributes to the replayable trace: nothing
    when it is empty or holds only `interacted_element`, otherwise one
    single-entry dictionary holding an entry of the action.
  */
  function Emit<P>(action: Dict<P>): (r: seq<Dict<P>>)
    ensures |r| <= 1
    ensures r == [] <==> forall j :: 0 <= j < |action| ==> action[j].name == InteractedElement
    ensures r != [] ==> |r[0]| == 1 && r[0][0].name != InteractedElement && r[0][0] in action
  {
    match FirstAction(action)
    case None => []
    case Some(e) => [[e]]
  }

  /**
    The replayable trace of a recorded one: each action in turn contributes
    the single-entry dictionary of its first non-`interacted_element` entry,
    or nothing.
  */
  function Reduce<P>(stored: seq<Dict<P>>): (r: seq<Dict<P>>)
    ensures |r| <= |stored|
    ensures forall k :: 0 <= k < |r| ==> |r[k]| == 1 && r[k][0].name != InteractedElement
  {
    if stored == [] then []
    else Reduce(stored[..|stored| - 1]) + Emit(stored[|stored| - 1])
  }

  /**
    The loop of `save_actions`: for each stored action, scan its entries in
    insertion order and append `{name: params}` for the first key that is not
    `interacted_element`, then break out of the scan.
  */
  method SaveActions<P>(stored: seq<Dict<P>>) returns (initial: seq<Dict<P>>)
    ensures initial == Reduce(stored)
  {
    initial := [];
    var i := 0;
    while i < |stored|
      invariant 0 <= i <= |stored|
      invariant initial == Reduce(stored[..i])
    {
      var action := stored[i];
      assert stored[..i + 1][..i] == stored[..i];
      var k := 0;
      while k < |action|
        invariant 0 <= k <= |action|
        invariant forall j :: 0 <= j < k ==> action[j].name == InteractedElement
        invariant initial == Reduce(stored[..i])
      {
        var name, parameters := action[k].name, action[k].params;
        if name != InteractedElement {
          var actionDict := [Entry(name, parameters)];
          FirstActionAt(action, k);
          initial := initial + [actionDict];
          assert initial == Reduce(stored[..i + 1]);
          break;
        }
        k := k + 1;
      }
      assert initial == Reduce(stored[..i + 1]);
      i := i + 1;
    }
    assert stored[..i] == stored;
  }

  /**
    The first non-`interacted_element` entry is determined by its position:
    if every entry before position k is `interacted_element` and the one at
    k is not, FirstAction picks the entry at k.
  */
  lemma {:induction false} FirstActionAt<P>(action: Dict<P>, k: nat)
    requires k < |action| && action[k].name != InteractedElement
    requires forall j :: 0 <= j < k ==> action[j].name == InteractedElement
    ensures FirstAction(action) == Some(action[k])
  {
    if k > 0 {
      FirstActionAt(action[1..], k - 1);
    }
  }

  /**
    The emitted record keeps the parameters unchanged: the original action
    maps the emitted key to exactly the emitted parameters, and the emitted
    record is a dictionary with that one key and the same value.
  */
  lemma EmitKeepsParams<P>(action: Dict<P>, e: Entry<P>)
    requires FirstAction(action) == Some(e)
    ensures Emit(action) == [[e]]
    ensures Get(action, e.name) == Some(e.params)
    ensures Keys(Emit(action)[0]) == [e.name]
    ensures Get(Emit(action)[0], e.name) == Some(e.params)
  {
    var k :| 0 <= k < |action| && action[k] == e &&
             forall j :: 0 <= j < k ==> action[j].name == InteractedElement;
    GetAt(action, k);
  }

  /** Lookup finds the first entry with the key it is asked for. */
  lemma {:induction false} GetAt<P>(d: Dict<P>, k: nat)
    requires k < |d|
    requires forall j :: 0 <= j < k ==> d[j].name != d[k].name
    ensures Get(d, d[k].name) == Some(d[k].params)
  {
    if k > 0 {
      GetAt(d[1..], k - 1);
    }
  }

  /** Reducing a concatenation reduces each part and keeps them in order. */
  lemma {:induction false} ReduceAppend<P>(a: seq<Dict<P>>, b: seq<Dict<P>>)
    ensures Reduce(a + b) == Reduce(a) + Reduce(b)
  {
    if b == [] {
      assert a + b == a;
    } else {
      var b' := b[..|b| - 1];
      assert (a + b)[..|a + b| - 1] == a + b';
      ReduceAppend(a, b');
    }
  }

  /** A trace of one action reduces to what that action emits. */
  lemma ReduceSingle<P>(action: Dict<P>)
    ensures Reduce([action]) == Emit(action)
  {
    assert [action][..0] == [];
  }

  /**
    The positions of the stored actions that contribute a record, in
    increasing order.
  */
  ghost function Sources<P>(stored: seq<Dict<P>>): seq<nat>
  {
    if stored == [] then []
    else
      Sources(stored[..|stored| - 1]) +
      (if FirstAction(stored[|stored| - 1]).Some? then [|stored| - 1] else [])
  }

  /**
    The contributing positions are valid positions of the stored trace, in
    strictly increasing order, and are exactly the positions of the actions
    that hold some key other than `interacted_element`.
  */
  lemma {:induction false} SourcesExactly<P>(stored: seq<Dict<P>>)
    ensures forall k :: 0 <= k < |Sources(stored)| ==> Sources(stored)[k] < |stored|
    ensures forall k, l :: 0 <= k < l < |Sources(stored)| ==> Sources(stored)[k] < Sources(stored)[l]
    ensures forall i :: 0 <= i < |stored| ==>
              (FirstAction(stored[i]).Some? <==> i in Sources(stored))
  {
    if stored != [] {
      var n := |stored| - 1;
      var prefix := stored[..n];
      SourcesExactly(prefix);
      assert forall i :: 0 <= i < n ==> stored[i] == prefix[i];
      var src, srcP := Sources(stored), Sources(prefix);
      if FirstAction(stored[n]).Some? {
        assert src == srcP + [n];
      } else {
        assert src == srcP;
      }
    }
  }

  /**
    The replayable trace, record by record: there is one record per
    contributing position, and the k-th record is the single-entry
    dictionary of the first non-`interacted_element` entry of the stored
    action at position Sources(stored)[k]. With SourcesExactly this says the
    order of the stored trace is kept and no action contributes twice.
  */
  lemma {:induction false} ReduceSources<P>(stored: seq<Dict<P>>)
    ensures |Sources(stored)| == |Reduce(stored)|
    ensures forall k :: 0 <= k < |Sources(stored)| ==>
              Sources(stored)[k] < |stored| &&
              FirstAction(stored[Sources(stored)[k]]).Some? &&
              Reduce(stored)[k] == [FirstAction(stored[Sources(stored)[k]]).value]
  {
    if stored != [] {
      var n := |stored| - 1;
      var prefix := stored[..n];
      ReduceSources(prefix);
      assert forall i :: 0 <= i < n ==> stored[i] == prefix[i];
      var src, red := Sources(stored), Reduce(stored);
      var srcP, redP := Sources(prefix), Reduce(prefix);
      match FirstAction(stored[n])
      case None =>
        assert src == srcP && red == redP;
      case Some(e) =>
        assert src == srcP + [n] && red == redP + [[e]];
    }
  }

  /**
    A replayable trace is its own reduction: reducing the output again
    changes nothing, so saving a trace that was itself saved is stable.
  */
  lemma {:induction false} ReduceIdempotent<P>(stored: seq<Dict<P>>)
    ensures Reduce(Reduce(stored)) == Reduce(stored)
  {
    if stored != [] {
      var prefix, last := stored[..|stored| - 1], stored[|stored| - 1];
      ReduceIdempotent(prefix);
      ReduceAppend(Reduce(prefix), Emit(last));
      ReduceSingle(last);
      match FirstAction(last)
      case None =>
        assert Reduce(Emit(last)) == [];
      case Some(e) =>
        FirstActionAt([e], 0);
        ReduceSingle([e]);
    }
  }
}
