/**
 * The init program's dependency resolution: units are started once all the
 * units they depend on run, and what can never start is disabled.
 */
module InitUnits {
  import opened Sequences

  /** spawns: whether starting the unit's command succeeds. */
  datatype Unit = Unit(name: string, depends: string, spawns: bool)

  datatype Status = Down | Running | Exited | Failed | Disabled

  // ---- Dependency lists ----

  predicate Separator(c: char) {
    c == ' ' || c == ',' || c == '\t'
  }

  /** The first position from i on whose character is (not) a separator. */
  function Skip(s: string, i: nat, separators: bool): (j: nat)
    requires i <= |s|
    ensures i <= j <= |s|
    ensures j < |s| ==> Separator(s[j]) != separators
    ensures forall k :: i <= k < j ==> Separator(s[k]) == separators
    decreases |s| - i
  {
    if i < |s| && Separator(s[i]) == separators then Skip(s, i + 1, separators) else i
  }

  /** The names listed from position i on. */
  function Names(s: string, i: nat): seq<string>
    requires i <= |s|
    decreases |s| - i
  {
    var a := Skip(s, i, true);
    if a == |s| then [] else
    var b := Skip(s, a, false);
    [s[a..b]] + Names(s, b)
  }

  function Deps(u: Unit): seq<string> {
    Names(u.depends, 0)
  }

  /** Only blanks, commas and tabs. */
  ghost predicate Gap(g: string) {
    forall k :: 0 <= k < |g| ==> g[k] in " ,\t"
  }

  ghost predicate Plain(name: string) {
    name != "" && forall k :: 0 <= k < |name| ==> name[k] !in " ,\t"
  }

  /** Names with gaps before, between and after them. */
  function Listed(gaps: seq<string>, names: seq<string>): string
    requires |gaps| == |names| + 1
  {
    if names == [] then gaps[0] else gaps[0] + names[0] + Listed(gaps[1..], names[1..])
  }

  /** Gaps that keep plain names apart. */
  ghost predicate Apart(gaps: seq<string>, names: seq<string>) {
    && |gaps| == |names| + 1
    && (forall k :: 0 <= k < |names| ==> Plain(names[k]))
    && (forall k :: 0 <= k < |gaps| ==> Gap(gaps[k]))
    && (forall k :: 0 < k < |names| ==> gaps[k] != "")
  }

  lemma {:induction false} SkipIs(s: string, i: nat, separators: bool, j: nat)
    requires i <= j <= |s| && (forall k :: i <= k < j ==> Separator(s[k]) == separators)
    requires j < |s| ==> Separator(s[j]) != separators
    ensures Skip(s, i, separators) == j
    decreases j - i
  {
    if i < j {
      SkipIs(s, i + 1, separators, j);
    }
  }

  /** A gap and a plain name in front of a separator or the end are one name. */
  lemma FirstName(before: string, g: string, name: string, rest: string)
    requires Gap(g) && Plain(name) && (rest != "" ==> Separator(rest[0]))
    ensures var s := before + g + name + rest;
      Names(s, |before|) == [name] + Names(s, |before + g + name|)
  {
    var s := before + g + name + rest;
    var a, b := |before + g|, |before + g + name|;
    assert forall k :: |before| <= k < a ==> s[k] == g[k - |before|];
    assert forall k :: a <= k < b ==> s[k] == name[k - a];
    SkipIs(s, |before|, true, a);
    assert b < |s| ==> s[b] == rest[0];
    SkipIs(s, a, false, b);
    assert s[a..b] == name;
  }

  lemma NoName(before: string, g: string)
    requires Gap(g)
    ensures Names(before + g, |before|) == []
  {
    var s := before + g;
    assert forall k :: |before| <= k < |s| ==> s[k] == g[k - |before|];
    SkipIs(s, |before|, true, |s|);
  }

  lemma {:induction false} NamesFrom(before: string, gaps: seq<string>, names: seq<string>)
    requires Apart(gaps, names)
    ensures Names(before + Listed(gaps, names), |before|) == names
    decreases |names|
  {
    hide Names, Gap, Plain;
    if names == [] {
      NoName(before, gaps[0]);
    } else {
      var rest := Listed(gaps[1..], names[1..]);
      assert before + Listed(gaps, names) == before + gaps[0] + names[0] + rest;
      StartsApart(gaps[1..], names[1..], |names| > 1);
      FirstName(before, gaps[0], names[0], rest);
      NamesFrom(before + gaps[0] + names[0], gaps[1..], names[1..]);
      assert [names[0]] + names[1..] == names;
    }
  }

  lemma StartsApart(gaps: seq<string>, names: seq<string>, more: bool)
    requires |gaps| == |names| + 1 && Gap(gaps[0]) && (more <==> names != []) && (more ==> gaps[0] != "")
    ensures var s := Listed(gaps, names); s != "" ==> Separator(s[0])
  {
  }

  /** Reading a list back: plain names set apart by blanks, tabs and commas, however
      many and however mixed, are read as exactly those names in that order. */
  lemma NamesOfList(gaps: seq<string>, names: seq<string>)
    requires Apart(gaps, names)
    ensures Names(Listed(gaps, names), 0) == names
  {
    NamesFrom("", gaps, names);
    assert "" + Listed(gaps, names) == Listed(gaps, names);
  }

  /** The first unit of that name from i on. */
  function Find(units: seq<Unit>, name: string, i: nat): (r: Option<nat>)
    requires i <= |units|
    ensures r.Some? ==> i <= r.value < |units| && units[r.value].name == name
    ensures r.Some? ==> forall j :: i <= j < r.value ==> units[j].name != name
    ensures r.None? ==> forall j :: i <= j < |units| ==> units[j].name != name
    decreases |units| - i
  {
    if i == |units| then None else if units[i].name == name then Some(i) else Find(units, name, i + 1)
  }

  // ---- Readiness ----

  predicate Has(units: seq<Unit>, st: seq<Status>, name: string, want: set<Status>)
    requires |st| == |units|
  {
    var d := Find(units, name, 0);
    d.Some? && st[d.value] in want
  }

  predicate AllHave(units: seq<Unit>, st: seq<Status>, names: seq<string>, want: set<Status>)
    requires |st| == |units|
  {
    forall x :: x in names ==> Has(units, st, x, want)
  }

  /** 1 when every dependency runs or has exited, 0 when some are still down and
      none is beyond hope, -1 when one is missing, failed or disabled. */
  function Ready(units: seq<Unit>, st: seq<Status>, names: seq<string>): int
    requires |st| == |units|
  {
    if AllHave(units, st, names, {Running, Exited}) then 1
    else if AllHave(units, st, names, {Down, Running, Exited}) then 0
    else -1
  }

  /** The first unit called x is in one of these states. */
  ghost predicate Stands(units: seq<Unit>, st: seq<Status>, x: string, i: nat, want: set<Status>) {
    && i < |units| == |st| && units[i].name == x && st[i] in want
    && forall j :: 0 <= j < i ==> units[j].name != x
  }

  lemma HasIff(units: seq<Unit>, st: seq<Status>, x: string, want: set<Status>)
    requires |st| == |units|
    ensures Has(units, st, x, want) <==> exists i: nat :: Stands(units, st, x, i, want)
  {
    if Has(units, st, x, want) {
      assert Stands(units, st, x, Find(units, x, 0).value, want);
    }
    if i: nat :| Stands(units, st, x, i, want) {
      assert Find(units, x, 0) == Some(i);
    }
  }

  /** A unit may start when every name it lists is a unit that runs or has exited, is
      beyond hope when one is no unit, or a failed or disabled one, and waits otherwise. */
  lemma ReadyExact(units: seq<Unit>, st: seq<Status>, names: seq<string>)
    requires |st| == |units|
    ensures Ready(units, st, names) == 1 <==>
              forall x :: x in names ==> exists i: nat :: Stands(units, st, x, i, {Running, Exited})
    ensures Ready(units, st, names) == -1 <==>
              exists x :: x in names && forall i: nat :: !Stands(units, st, x, i, {Down, Running, Exited})
    ensures Ready(units, st, names) in {-1, 0, 1}
  {
    forall x | x in names
      ensures Has(units, st, x, {Running, Exited}) <==> exists i: nat :: Stands(units, st, x, i, {Running, Exited})
      ensures Has(units, st, x, {Down, Running, Exited}) <==> exists i: nat :: Stands(units, st, x, i, {Down, Running, Exited})
      ensures Has(units, st, x, {Running, Exited}) ==> Has(units, st, x, {Down, Running, Exited})
    {
      HasIff(units, st, x, {Running, Exited});
      HasIff(units, st, x, {Down, Running, Exited});
    }
  }

  // ---- The outcome ----

  ghost predicate DepsRun(units: seq<Unit>, st: seq<Status>, i: nat)
    requires |st| == |units| && i < |units|
  {
    AllHave(units, st, Deps(units[i]), {Running})
  }

  /** The states are a fixed point: each unit's state is what its dependencies'
      states call for. */
  ghost predicate Resolved(units: seq<Unit>, st: seq<Status>) {
    && |st| == |units|
    && forall i: nat :: i < |units| ==>
         st[i] == (if DepsRun(units, st, i) then if units[i].spawns then Running else Failed else Disabled)
  }

  /** A starting order: every unit spawns, after all the units it depends on. */
  ghost predicate Ordered(units: seq<Unit>, order: seq<nat>) {
    forall k: nat :: k < |order| ==> OrderedAt(units, order, k)
  }

  ghost predicate OrderedAt(units: seq<Unit>, order: seq<nat>, k: nat)
    requires k < |order|
  {
    && order[k] < |units| && units[order[k]].spawns
    && forall x :: x in Deps(units[order[k]]) ==>
         Find(units, x, 0).Some? && Find(units, x, 0).value in order[..k]
  }

  predicate NamedIn(units: seq<Unit>, x: string, q: set<nat>) {
    var d := Find(units, x, 0);
    d.Some? && d.value in q
  }

  ghost predicate DepsIn(units: seq<Unit>, i: nat, q: set<nat>)
    requires i < |units|
  {
    forall x :: x in Deps(units[i]) ==> NamedIn(units, x, q)
  }

  /** A set of units that contains every unit that spawns and depends only on
      members of the set. */
  ghost predicate Closed(units: seq<Unit>, q: set<nat>) {
    forall i: nat :: i < |units| && units[i].spawns && DepsIn(units, i, q) ==> i in q
  }

  /** The states start_all must reach: a fixed point whose running units can all
      be started in some order. */
  ghost predicate Outcome(units: seq<Unit>, st: seq<Status>, order: seq<nat>) {
    && Resolved(units, st)
    && Ordered(units, order)
    && forall i: nat :: i < |units| ==> (st[i] == Running <==> i in order)
  }

  /** Leastness: the running units are in every closed set. */
  lemma {:induction false} OrderInClosed(units: seq<Unit>, order: seq<nat>, q: set<nat>, k: nat)
    requires Ordered(units, order) && Closed(units, q) && k <= |order|
    ensures forall i :: i in order[..k] ==> i in q
  {
    if k > 0 {
      OrderInClosed(units, order, q, k - 1);
      assert OrderedAt(units, order, k - 1);
      assert DepsIn(units, order[k - 1], q);
      assert order[k - 1] in q;
      assert order[..k] == order[..k - 1] + [order[k - 1]];
    }
  }

  lemma RunningIsLeast(units: seq<Unit>, st: seq<Status>, order: seq<nat>, q: set<nat>)
    requires Outcome(units, st, order) && Closed(units, q)
    ensures forall i: nat :: i < |units| && st[i] == Running ==> i in q
  {
    OrderInClosed(units, order, q, |order|);
    assert order[..|order|] == order;
  }

  ghost function RunningSet(st: seq<Status>): set<nat> {
    set i | 0 <= i < |st| && st[i] == Running
  }

  lemma RunningIsClosed(units: seq<Unit>, st: seq<Status>)
    requires Resolved(units, st)
    ensures Closed(units, RunningSet(st))
  {
    var q := RunningSet(st);
    forall i: nat | i < |units| && units[i].spawns && DepsIn(units, i, q) ensures i in q {
      assert DepsRun(units, st, i);
    }
  }

  /** There is only one outcome. */
  lemma OutcomeUnique(units: seq<Unit>, st: seq<Status>, order: seq<nat>, st': seq<Status>, order': seq<nat>)
    requires Outcome(units, st, order) && Outcome(units, st', order')
    ensures st == st'
  {
    RunningIsClosed(units, st);
    RunningIsClosed(units, st');
    RunningIsLeast(units, st, order, RunningSet(st'));
    RunningIsLeast(units, st', order', RunningSet(st));
    forall i: nat | i < |units| ensures st[i] == st'[i] {
      assert DepsRun(units, st, i) <==> DepsRun(units, st', i);
    }
  }

  /** Every unit of the set depends on a unit of the set. */
  ghost predicate Knot(units: seq<Unit>, c: set<nat>) {
    forall i: nat :: KnotAt(units, c, i)
  }

  ghost predicate KnotAt(units: seq<Unit>, c: set<nat>, i: nat) {
    i in c ==> i < |units| && exists x :: x in Deps(units[i]) && NamedIn(units, x, c)
  }

  /** Units that wait for each other in a cycle are disabled, as is everything
      that depends on them. */
  lemma CyclesDisabled(units: seq<Unit>, st: seq<Status>, order: seq<nat>, c: set<nat>, i: nat)
    requires Outcome(units, st, order) && Knot(units, c)
    requires i in c && i < |units|
    ensures st[i] == Disabled
  {
    var q := set j: nat | j < |units| && j !in c;
    forall j: nat | j < |units| && units[j].spawns && DepsIn(units, j, q) ensures j in q {
      assert KnotAt(units, c, j);
    }
    RunningIsLeast(units, st, order, q);
    assert KnotAt(units, c, i);
    var x :| x in Deps(units[i]) && NamedIn(units, x, c);
    assert !Has(units, st, x, {Running});
  }

  lemma MissingDisabled(units: seq<Unit>, st: seq<Status>, i: nat, x: string)
    requires Resolved(units, st) && i < |units| && x in Deps(units[i])
    requires forall j :: 0 <= j < |units| ==> units[j].name != x
    ensures st[i] == Disabled
  {
    assert !Has(units, st, x, {Running});
  }

  // ---- The order of the configuration file ----

  ghost predicate UniqueNames(units: seq<Unit>) {
    forall i, j :: 0 <= i < j < |units| ==> units[i].name != units[j].name
  }

  ghost predicate SameUnits(a: seq<Unit>, b: seq<Unit>) {
    UniqueNames(a) && UniqueNames(b) && forall u :: u in a <==> u in b
  }

  lemma FindSame(a: seq<Unit>, b: seq<Unit>, x: string)
    requires SameUnits(a, b) && Find(a, x, 0).Some?
    ensures Find(b, x, 0).Some? && b[Find(b, x, 0).value] == a[Find(a, x, 0).value]
  {
    var u := a[Find(a, x, 0).value];
    assert u in b;
    var j :| 0 <= j < |b| && b[j] == u;
    assert b[j].name == x;
  }

  /** The same units listed in another order: whatever runs in one runs in the other. */
  lemma RunsInBoth(a: seq<Unit>, st: seq<Status>, order: seq<nat>, b: seq<Unit>, st': seq<Status>, i: nat, j: nat)
    requires SameUnits(a, b) && Outcome(a, st, order) && Resolved(b, st')
    requires i < |a| && j < |b| && a[i] == b[j] && st[i] == Running
    ensures st'[j] == Running
  {
    var q := set k: nat | k < |a| && Has(b, st', a[k].name, {Running});
    forall k: nat | k < |a| && a[k].spawns && DepsIn(a, k, q) ensures k in q {
      assert a[k] in b;
      FindSame(a, b, a[k].name);
      var m := Find(b, a[k].name, 0).value;
      FindUnique(a, k);
      assert b[m] == a[k];
      forall x | x in Deps(b[m]) ensures Has(b, st', x, {Running}) {
        assert NamedIn(a, x, q);
      }
      assert DepsRun(b, st', m);
    }
    RunningIsLeast(a, st, order, q);
    assert i in q;
    FindUnique(b, j);
  }

  lemma FindUnique(units: seq<Unit>, i: nat)
    requires UniqueNames(units) && i < |units|
    ensures Find(units, units[i].name, 0) == Some(i)
  {
  }

  /** With unique names, a unit's final state does not depend on where the
      configuration lists it. */
  lemma OrderIndependent(a: seq<Unit>, st: seq<Status>, order: seq<nat>,
                         b: seq<Unit>, st': seq<Status>, order': seq<nat>, i: nat, j: nat)
    requires SameUnits(a, b) && Outcome(a, st, order) && Outcome(b, st', order')
    requires i < |a| && j < |b| && a[i] == b[j]
    ensures st[i] == st'[j]
  {
    forall x | x in Deps(a[i]) ensures Has(a, st, x, {Running}) <==> Has(b, st', x, {Running}) {
      HasInBoth(a, st, order, b, st', order', x);
    }
    assert DepsRun(a, st, i) <==> DepsRun(b, st', j);
  }

  lemma HasInBoth(a: seq<Unit>, st: seq<Status>, order: seq<nat>,
                  b: seq<Unit>, st': seq<Status>, order': seq<nat>, x: string)
    requires SameUnits(a, b) && Outcome(a, st, order) && Outcome(b, st', order')
    ensures Has(a, st, x, {Running}) <==> Has(b, st', x, {Running})
  {
    if Has(a, st, x, {Running}) {
      FindSame(a, b, x);
      RunsInBoth(a, st, order, b, st', Find(a, x, 0).value, Find(b, x, 0).value);
    }
    if Has(b, st', x, {Running}) {
      FindSame(b, a, x);
      RunsInBoth(b, st', order', a, st, Find(b, x, 0).value, Find(a, x, 0).value);
    }
  }
}
