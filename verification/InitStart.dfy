/** start_all: rounds over the unit table until nothing changes. */
module InitStart {
  import opened Sequences
  import opened InitUnits

  function DownCount(st: seq<Status>): nat {
    if st == [] then 0 else (if st[0] == Down then 1 else 0) + DownCount(st[1..])
  }

  lemma {:induction false} DownCountDrops(st: seq<Status>, i: nat, v: Status)
    requires i < |st| && st[i] == Down && v != Down
    ensures DownCount(st[i := v]) == DownCount(st) - 1
  {
    if i == 0 {
      assert st[i := v][1..] == st[1..];
    } else {
      assert st[i := v][1..] == st[1..][i - 1 := v];
      DownCountDrops(st[1..], i - 1, v);
    }
  }

  /** What is known of a unit that has left Down. */
  ghost predicate Justified(units: seq<Unit>, st: seq<Status>, order: seq<nat>, i: nat)
    requires |st| == |units| && i < |units|
  {
    match st[i]
    case Down => i !in order
    case Running => i in order && units[i].spawns && DepsRun(units, st, i)
    case Failed => i !in order && !units[i].spawns && DepsRun(units, st, i)
    case Disabled => i !in order && Ready(units, st, Deps(units[i])) == -1
    case Exited => false
  }

  ghost predicate Progress(units: seq<Unit>, st: seq<Status>, order: seq<nat>) {
    && |st| == |units|
    && Ordered(units, order)
    && forall i: nat :: i < |units| ==> Justified(units, st, order, i)
  }

  /** Facts about dependencies survive when a Down unit changes state. */
  lemma StaysReady(units: seq<Unit>, st: seq<Status>, i: nat, v: Status, names: seq<string>)
    requires |st| == |units| && i < |units| && st[i] == Down && v != Down
    ensures AllHave(units, st, names, {Running}) ==> AllHave(units, st[i := v], names, {Running})
    ensures v != Exited && Ready(units, st, names) == -1 ==> Ready(units, st[i := v], names) == -1
  {
    if Ready(units, st, names) == -1 && v != Exited {
      var x :| x in names && !Has(units, st, x, {Down, Running, Exited});
      assert !Has(units, st[i := v], x, {Down, Running, Exited});
      assert !Has(units, st[i := v], x, {Running, Exited});
    }
    forall x | x in names && Has(units, st, x, {Running}) ensures Has(units, st[i := v], x, {Running}) {
    }
  }

  lemma {:induction false} OrderedExtends(units: seq<Unit>, order: seq<nat>, i: nat)
    requires Ordered(units, order) && i < |units| && units[i].spawns
    requires forall x :: x in Deps(units[i]) ==> Find(units, x, 0).Some? && Find(units, x, 0).value in order
    ensures Ordered(units, order + [i])
  {
    var order' := order + [i];
    forall k: nat | k < |order'| ensures OrderedAt(units, order', k) {
      if k < |order| {
        assert OrderedAt(units, order, k);
        assert order'[..k] == order[..k];
      } else {
        assert order'[..k] == order;
      }
    }
  }

  lemma ProgressStep(units: seq<Unit>, st: seq<Status>, order: seq<nat>, i: nat, v: Status)
    requires Progress(units, st, order) && i < |units| && st[i] == Down
    requires v == if Ready(units, st, Deps(units[i])) == -1 then Disabled else if units[i].spawns then Running else Failed
    requires Ready(units, st, Deps(units[i])) != 0
    ensures Progress(units, st[i := v], if v == Running then order + [i] else order)
  {
    var st' := st[i := v];
    var order' := if v == Running then order + [i] else order;
    assert Justified(units, st, order, i);
    if Ready(units, st, Deps(units[i])) == 1 {
      AllRunning(units, st, order, Deps(units[i]));
    }
    if v == Running {
      OrderedExtends(units, order, i);
    }
    forall j: nat | j < |units| ensures Justified(units, st', order', j) {
      assert Justified(units, st, order, j);
      StaysReady(units, st, i, v, Deps(units[j]));
    }
  }

  /** Nothing has exited yet, so a satisfied dependency is a running one. */
  lemma AllRunning(units: seq<Unit>, st: seq<Status>, order: seq<nat>, names: seq<string>)
    requires Progress(units, st, order) && AllHave(units, st, names, {Running, Exited})
    ensures AllHave(units, st, names, {Running})
    ensures forall x :: x in names ==> Find(units, x, 0).Some? && Find(units, x, 0).value in order
  {
    forall x | x in names ensures Has(units, st, x, {Running}) && Find(units, x, 0).value in order {
      assert Has(units, st, x, {Running, Exited});
      assert Justified(units, st, order, Find(units, x, 0).value);
    }
  }

  /** No unit is left that can change: what is Down waits on something Down. */
  ghost predicate Stalled(units: seq<Unit>, st: seq<Status>, n: nat)
    requires |st| == |units| && n <= |units|
  {
    forall i: nat :: i < n && st[i] == Down ==> Ready(units, st, Deps(units[i])) == 0
  }

  ghost function Given(st: seq<Status>, n: nat): seq<Status>
    requires n <= |st|
  {
    seq(|st|, i requires 0 <= i < |st| => if i < n && st[i] == Down then Disabled else st[i])
  }

  lemma StalledOutcome(units: seq<Unit>, st: seq<Status>, order: seq<nat>)
    requires Progress(units, st, order) && Stalled(units, st, |units|)
    ensures Outcome(units, Given(st, |st|), order)
  {
    var u := Given(st, |st|);
    forall i: nat | i < |units|
      ensures u[i] == if DepsRun(units, u, i) then if units[i].spawns then Running else Failed else Disabled
      ensures u[i] == Running <==> i in order
    {
      assert Justified(units, st, order, i);
      SameRunning(units, st, Deps(units[i]));
      if st[i] == Down || st[i] == Disabled {
        var x :| x in Deps(units[i]) && !Has(units, st, x, {Running, Exited});
        assert !Has(units, st, x, {Running});
      }
    }
  }

  lemma SameRunning(units: seq<Unit>, st: seq<Status>, names: seq<string>)
    requires |st| == |units|
    ensures AllHave(units, st, names, {Running}) <==> AllHave(units, Given(st, |st|), names, {Running})
  {
    forall x | x in names ensures Has(units, st, x, {Running}) <==> Has(units, Given(st, |st|), x, {Running}) {
    }
  }

  lemma Hopeless(units: seq<Unit>, st: seq<Status>, names: seq<string>, x: string)
    requires |st| == |units| && x in names && !Has(units, st, x, {Down, Running, Exited})
    ensures Ready(units, st, names) == -1
  {
    assert !Has(units, st, x, {Running, Exited});
  }

  lemma NothingAsked(units: seq<Unit>, st: seq<Status>)
    requires |st| == |units|
    ensures AllHave(units, st, [], {Running, Exited}) && AllHave(units, st, [], {Down, Running, Exited})
  {
  }

  lemma AllDown(units: seq<Unit>)
    ensures Progress(units, seq(|units|, _ => Down), [])
  {
  }

  lemma IsHopeless(units: seq<Unit>, st: seq<Status>, x: string)
    requires |st| == |units|
    ensures var d := Find(units, x, 0);
      && (Has(units, st, x, {Down, Running, Exited}) <==> d.Some? && st[d.value] !in {Failed, Disabled})
      && (Has(units, st, x, {Running, Exited}) <==> d.Some? && st[d.value] !in {Failed, Disabled, Down})
  {
    var d := Find(units, x, 0);
    if d.Some? {
      var v := st[d.value];
      assert v.Down? || v.Running? || v.Exited? || v.Failed? || v.Disabled?;
    }
  }

  lemma NamesStep(s: string, i: nat)
    requires i <= |s|
    ensures var a := Skip(s, i, true);
      Names(s, i) == if a == |s| then [] else [s[a..Skip(s, a, false)]] + Names(s, Skip(s, a, false))
  {
  }

  lemma ReadyIs(units: seq<Unit>, st: seq<Status>, names: seq<string>, block: bool)
    requires |st| == |units| && AllHave(units, st, names, {Down, Running, Exited})
    requires block <==> !AllHave(units, st, names, {Running, Exited})
    ensures Ready(units, st, names) == if block then 0 else 1
  {
  }

  lemma OneMore(units: seq<Unit>, st: seq<Status>, names: seq<string>, x: string, want: set<Status>)
    requires |st| == |units|
    ensures AllHave(units, st, names + [x], want) <==> AllHave(units, st, names, want) && Has(units, st, x, want)
  {
    if AllHave(units, st, names + [x], want) {
      forall y | y in names ensures Has(units, st, y, want) {
        assert y in names + [x];
      }
      assert x in names + [x];
    }
  }

  class UnitTable {
    const units: seq<Unit>
    var state: seq<Status>

    constructor (us: seq<Unit>)
      ensures units == us && state == seq(|us|, _ => Down)
    {
      units := us;
      state := seq(|us|, _ => Down);
    }

    method UnitByName(name: string) returns (r: Option<nat>)
      ensures r == Find(units, name, 0)
    {
      var i := 0;
      while i < |units|
        invariant 0 <= i <= |units|
        invariant Find(units, name, 0) == Find(units, name, i)
      {
        if units[i].name == name {
          return Some(i);
        }
        i := i + 1;
      }
      return None;
    }

    /** deps_satisfied, walking the dependency string. */
    method DepsSatisfied(u: Unit) returns (r: int)
      requires |state| == |units|
      ensures r == Ready(units, state, Deps(u))
    {
      hide AllHave, Ready, Skip, Names, Has;
      var s := u.depends;
      var i, block := 0, false;
      ghost var seen: seq<string> := [];
      NothingAsked(units, state);
      while i < |s|
        invariant 0 <= i <= |s|
        invariant Deps(u) == seen + Names(s, i)
        invariant AllHave(units, state, seen, {Down, Running, Exited})
        invariant block <==> !AllHave(units, state, seen, {Running, Exited})
        decreases |s| - i
      {
        NamesStep(s, i);
        var a := SkipWhile(s, i, true);
        if a == |s| {
          assert Deps(u) == seen;
          i := a;
          break;
        }
        var b := SkipWhile(s, a, false);
        var name := s[a..b];
        var d := UnitByName(name);
        IsHopeless(units, state, name);
        assert name in Deps(u);
        if d.None? {
          Hopeless(units, state, Deps(u), name);
          return -1;
        }
        var ds := state[d.value];
        if ds == Failed || ds == Disabled {
          Hopeless(units, state, Deps(u), name);
          return -1;
        }
        if ds == Down {
          block := true;
        }
        OneMore(units, state, seen, name, {Running, Exited});
        OneMore(units, state, seen, name, {Down, Running, Exited});
        seen := seen + [name];
        i := b;
      }
      NamesStep(s, |s|);
      assert Deps(u) == seen;
      ReadyIs(units, state, seen, block);
      return if block then 0 else 1;
    }

    method SkipWhile(s: string, i: nat, separators: bool) returns (j: nat)
      requires i <= |s|
      ensures j == Skip(s, i, separators)
    {
      j := i;
      while j < |s| && Separator(s[j]) == separators
        invariant i <= j <= |s|
        invariant Skip(s, i, separators) == Skip(s, j, separators)
      {
        j := j + 1;
      }
    }

    method StartUnit(i: nat)
      requires i < |units| && |state| == |units|
      modifies this
      ensures state == old(state)[i := if units[i].spawns then Running else Failed]
    {
      state := state[i := if units[i].spawns then Running else Failed];
    }

    /** One round: every unit that can be decided is. */
    method Round(ghost order: seq<nat>) returns (progress: bool, ghost order': seq<nat>)
      requires Progress(units, state, order)
      modifies this
      ensures Progress(units, state, order')
      ensures DownCount(state) <= DownCount(old(state))
      ensures progress ==> DownCount(state) < DownCount(old(state))
      ensures !progress ==> state == old(state) && order' == order && Stalled(units, state, |units|)
    {
      hide Ready, Progress, DownCount;
      assert |state| == |units| by { Sized(units, state, order); }
      progress, order' := false, order;
      var i := 0;
      while i < |units|
        invariant 0 <= i <= |units| && |state| == |units|
        invariant Progress(units, state, order')
        invariant DownCount(state) <= DownCount(old(state))
        invariant progress ==> DownCount(state) < DownCount(old(state))
        invariant !progress ==> state == old(state) && order' == order && Stalled(units, state, i)
      {
        if state[i] == Down {
          var r := DepsSatisfied(units[i]);
          ReadyRange(units, state, Deps(units[i]));
          if r > 0 {
            DownCountDrops(state, i, if units[i].spawns then Running else Failed);
            ProgressStep(units, state, order', i, if units[i].spawns then Running else Failed);
            StartUnit(i);
            order' := if units[i].spawns then order' + [i] else order';
            progress := true;
          } else if r < 0 {
            DownCountDrops(state, i, Disabled);
            ProgressStep(units, state, order', i, Disabled);
            state := state[i := Disabled];
            progress := true;
          }
        }
        i := i + 1;
      }
    }

    /**
     * start_all: from all units down, reach the unique outcome. The rounds end
     * because each one that changes anything lowers the number of Down units.
     */
    method StartAll() returns (ghost order: seq<nat>)
      requires state == seq(|units|, _ => Down)
      modifies this
      ensures Outcome(units, state, order)
    {
      hide Progress, Outcome, DownCount, Stalled;
      AllDown(units);
      order := [];
      var progress := true;
      Sized(units, state, order);
      while progress
        invariant |state| == |units| && Progress(units, state, order)
        invariant !progress ==> Stalled(units, state, |units|)
        decreases DownCount(state), progress
      {
        progress, order := Round(order);
        Sized(units, state, order);
      }
      StalledOutcome(units, state, order);
      DisableRest();
    }

    /** Whatever is still Down can never start. */
    method DisableRest()
      requires |state| == |units|
      modifies this
      ensures state == Given(old(state), |units|)
    {
      var i := 0;
      while i < |units|
        invariant 0 <= i <= |units|
        invariant state == Given(old(state), i)
      {
        if state[i] == Down {
          state := state[i := Disabled];
        }
        i := i + 1;
      }
    }
  }

  lemma Sized(units: seq<Unit>, st: seq<Status>, order: seq<nat>)
    requires Progress(units, st, order)
    ensures |st| == |units|
  {
  }

  lemma ReadyRange(units: seq<Unit>, st: seq<Status>, names: seq<string>)
    requires |st| == |units|
    ensures Ready(units, st, names) in {-1, 0, 1}
  {
  }
}
