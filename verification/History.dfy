/** The undo and redo stacks of deltas. */
module History {
  import opened Utf8
  import opened Errors
  import opened Text
  import opened Changes

  datatype EditOrigin = Input | Composition | Paste | Drop | Cut | Command | UndoOrigin | RedoOrigin | Api | LoadOrigin

  datatype HistoryLimits = HistoryLimits(maxGroups: nat, maxBytes: nat, groupDelayMs: nat) {
    predicate Valid() {
      maxGroups != 0 && maxBytes != 0
    }
  }

  datatype InputKind = Insert | Backspace | Delete

  datatype Entry = Entry(forward: ChangeSet, backward: ChangeSet, before: Selection, after: Selection)

  /** `bytes` is the retained weight the allocator gives the group when it last changed. */
  datatype Group = Group(entries: seq<Entry>, lastTime: nat, kind: Option<InputKind>, bytes: nat)

  datatype Stacks = Stacks(undo: seq<Group>, redo: seq<Group>, open: bool)

  /** Which kind of plain typing an edit is, if any. */
  function Kind(forward: ChangeSet, before: Selection, after: Selection, origin: EditOrigin): Option<InputKind> {
    if origin != Input || !before.IsEmpty() || !after.IsEmpty() || |forward| != 1 then None
    else
      var change := forward[0];
      if change.IsInsertion() && change.from == before.head
         && after.head == change.from + |change.insert| && LF !in change.insert then Some(Insert)
      else if change.insert == [] && change.to == before.head && change.from == after.head then Some(Backspace)
      else if change.insert == [] && change.from == before.head && before == after then Some(Delete)
      else None
  }

  function Total(groups: seq<Group>): nat {
    if groups == [] then 0 else groups[0].bytes + Total(groups[1..])
  }

  predicate OverBudget(groups: seq<Group>, limits: HistoryLimits) {
    |groups| > limits.maxGroups || Total(groups) > limits.maxBytes
  }

  function Evicted(groups: seq<Group>, limits: HistoryLimits): seq<Group> {
    if OverBudget(groups, limits) then Evicted(groups[1..], limits) else groups
  }

  predicate JoinsLast(h: Stacks, entry: Entry, kind: Option<InputKind>, time: nat, limits: HistoryLimits) {
    && h.open && kind.Some? && h.undo != []
    && var group := h.undo[|h.undo| - 1];
    && group.kind == kind
    && time >= group.lastTime
    && time - group.lastTime <= limits.groupDelayMs
    && group.entries != []
    && group.entries[|group.entries| - 1].after == entry.before
  }

  function Extended(h: Stacks, entry: Entry, kind: Option<InputKind>, time: nat, bytes: nat,
          limits: HistoryLimits): seq<Group> {
    if JoinsLast(h, entry, kind, time, limits) then
      var group := h.undo[|h.undo| - 1];
      h.undo[..|h.undo| - 1] + [group.(entries := group.entries + [entry], lastTime := time, bytes := bytes)]
    else h.undo + [Group([entry], time, kind, bytes)]
  }

  /** What `record` leaves; `bytes` is the new weight of the group the entry goes to. */
  function Recorded(h: Stacks, entry: Entry, origin: EditOrigin, time: nat, bytes: nat, limits: HistoryLimits): Stacks {
    var kind := Kind(entry.forward, entry.before, entry.after, origin);
    var undo := Evicted(Extended(h, entry, kind, time, bytes, limits), limits);
    Stacks(undo, [], kind.Some? && undo != [])
  }

  function Travelled(h: Stacks, redo: bool): Stacks {
    if redo then
      if h.redo == [] then h.(open := false)
      else Stacks(h.undo + [h.redo[|h.redo| - 1]], h.redo[..|h.redo| - 1], false)
    else
      if h.undo == [] then h.(open := false)
      else Stacks(h.undo[..|h.undo| - 1], h.redo + [h.undo[|h.undo| - 1]], false)
  }

  const NOTHING := Stacks([], [], false)

  class History {
    var undo: seq<Group>
    var redo: seq<Group>
    var open: bool
    const limits: HistoryLimits

    function State(): Stacks
      reads this
    {
      Stacks(undo, redo, open)
    }

    constructor (limits: HistoryLimits)
      ensures State() == NOTHING && this.limits == limits
    {
      undo, redo, open := [], [], false;
      this.limits := limits;
    }

    method Clear()
      modifies this
      ensures State() == NOTHING
    {
      undo, redo, open := [], [], false;
    }

    method CloseGroup()
      modifies this
      ensures State() == old(State()).(open := false)
    {
      open := false;
    }

    method Record(entry: Entry, origin: EditOrigin, time: nat, bytes: nat) returns (retained: bool)
      modifies this
      ensures State() == Recorded(old(State()), entry, origin, time, bytes, limits)
      ensures retained <==> undo != []
    {
      redo := [];
      var kind := Kind(entry.forward, entry.before, entry.after, origin);
      if JoinsLast(State(), entry, kind, time, limits) {
        var group := undo[|undo| - 1];
        undo := undo[..|undo| - 1] + [group.(entries := group.entries + [entry], lastTime := time, bytes := bytes)];
      } else {
        undo := undo + [Group([entry], time, kind, bytes)];
      }
      open := kind.Some?;
      while |undo| > limits.maxGroups || Total(undo) > limits.maxBytes
        invariant redo == [] && open == kind.Some?
        invariant Evicted(undo, limits) == Evicted(Extended(old(State()), entry, kind, time, bytes, limits), limits)
        decreases |undo|
      {
        undo := undo[1..];
      }
      if undo == [] {
        open := false;
      }
      return undo != [];
    }

    method Travel(toRedo: bool)
      modifies this
      ensures State() == Travelled(old(State()), toRedo)
    {
      open := false;
      if toRedo {
        if redo != [] {
          undo, redo := undo + [redo[|redo| - 1]], redo[..|redo| - 1];
        }
      } else if undo != [] {
        undo, redo := undo[..|undo| - 1], redo + [undo[|undo| - 1]];
      }
    }
  }

  // ---- retention ----

  predicate WithinBudget(h: Stacks, limits: HistoryLimits) {
    |h.undo| + |h.redo| <= limits.maxGroups && Total(h.undo) + Total(h.redo) <= limits.maxBytes
  }

  lemma {:induction false} TotalAppend(a: seq<Group>, b: seq<Group>)
    ensures Total(a + b) == Total(a) + Total(b)
  {
    if a == [] {
      assert a + b == b;
    } else {
      assert (a + b)[0] == a[0] && (a + b)[1..] == a[1..] + b;
      TotalAppend(a[1..], b);
    }
  }

  /** Eviction drops the oldest groups, and as few of them as the budget allows. */
  lemma {:induction false} EvictedIsLongestFit(groups: seq<Group>, limits: HistoryLimits)
    ensures var kept := Evicted(groups, limits);
            && |kept| <= |groups| && kept == groups[|groups| - |kept|..]
            && !OverBudget(kept, limits)
            && forall k :: 0 <= k < |groups| - |kept| ==> OverBudget(groups[k..], limits)
  {
    if OverBudget(groups, limits) {
      var rest := groups[1..];
      EvictedIsLongestFit(rest, limits);
      var kept := Evicted(rest, limits);
      forall k | 0 <= k < |groups| - |kept|
        ensures OverBudget(groups[k..], limits)
      {
        if k == 0 { assert groups[0..] == groups; } else { assert groups[k..] == rest[k - 1..]; }
      }
    } else {
      assert groups[0..] == groups;
    }
  }

  lemma RecordKeepsBudget(h: Stacks, entry: Entry, origin: EditOrigin, time: nat, bytes: nat, limits: HistoryLimits)
    ensures WithinBudget(Recorded(h, entry, origin, time, bytes, limits), limits)
  {
    var kind := Kind(entry.forward, entry.before, entry.after, origin);
    EvictedIsLongestFit(Extended(h, entry, kind, time, bytes, limits), limits);
  }

  /** Travel moves one group and conserves both totals. */
  lemma TravelConserves(h: Stacks, redo: bool)
    ensures var t := Travelled(h, redo);
            && |t.undo| + |t.redo| == |h.undo| + |h.redo|
            && Total(t.undo) + Total(t.redo) == Total(h.undo) + Total(h.redo)
  {
    if redo && h.redo != [] {
      var g := h.redo[|h.redo| - 1];
      assert h.redo == h.redo[..|h.redo| - 1] + [g];
      TotalAppend(h.undo, [g]);
      TotalAppend(h.redo[..|h.redo| - 1], [g]);
    } else if !redo && h.undo != [] {
      var g := h.undo[|h.undo| - 1];
      assert h.undo == h.undo[..|h.undo| - 1] + [g];
      TotalAppend(h.redo, [g]);
      TotalAppend(h.undo[..|h.undo| - 1], [g]);
    }
  }

  /** Undo followed by redo, or the other way, puts both stacks back. */
  lemma TravelBack(h: Stacks, redo: bool)
    requires if redo then h.redo != [] else h.undo != []
    ensures Travelled(Travelled(h, redo), !redo) == h.(open := false)
  {
    if redo {
      assert h.redo[..|h.redo| - 1] + [h.redo[|h.redo| - 1]] == h.redo;
      assert (h.undo + [h.redo[|h.redo| - 1]])[..|h.undo|] == h.undo;
    } else {
      assert h.undo[..|h.undo| - 1] + [h.undo[|h.undo| - 1]] == h.undo;
      assert (h.redo + [h.undo[|h.undo| - 1]])[..|h.redo|] == h.redo;
    }
  }
}
