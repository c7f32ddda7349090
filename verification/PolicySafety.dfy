/** What the server's policy routing guarantees, over any rule list: exactly what one call leaves at its two
    priorities, when that is the two desired rules alone, how many calls always get there, and that a packet from a
    peer never gets past preference 102, not even between the requests of a call. */
module PolicySafety {
  import opened Sequences
  import opened Ipv4
  import opened PolicyRouting

  /** Both desired rules name either a destination or an interface, and not both. */
  predicate Specific(want: Rule) {
    want.dst.Some? <==> want.iif.None?
  }

  /** The same rule for every packet. */
  function General(want: Rule): Rule {
    want.(dst := None, iif := None)
  }

  /** The desired rule is listed before the general one: deleting the latter then removes the former. */
  ghost predicate Shadowed(rules: seq<Rule>, want: Rule) {
    exists i, j :: 0 <= i < j < |rules| && rules[i] == want && rules[j] == General(want)
  }

  /** The rules at priority prio, or those at every other priority, in order. */
  function Select(rules: seq<Rule>, prio: nat, at: bool): seq<Rule> {
    if rules == [] then [] else
    var r := rules[|rules| - 1];
    Select(rules[..|rules| - 1], prio, at) + if (r.prio == prio) == at then [r] else []
  }

  function At(rules: seq<Rule>, prio: nat): seq<Rule> {
    Select(rules, prio, true)
  }

  function Others(rules: seq<Rule>, prio: nat): seq<Rule> {
    Select(rules, prio, false)
  }

  /** How many rules of the list have the four fields of x. */
  function Copies(rules: seq<Rule>, x: Rule): nat {
    if rules == [] then 0 else
    Copies(rules[..|rules| - 1], x) + if rules[|rules| - 1] == x then 1 else 0
  }

  /** What a sweep leaves at its priority. A listed copy of want joins the end; a general rule joins the end too, and
      its own delete takes the first of those still there. */
  function Queue(rules: seq<Rule>, want: Rule): seq<Rule> {
    if rules == [] then [] else
    var queue, r := Queue(rules[..|rules| - 1], want), rules[|rules| - 1];
    if r == want then queue + [r] else if r == General(want) then (queue + [r])[1..] else queue
  }

  // ---- facts about the filters ----

  lemma {:induction false} SelectConcat(a: seq<Rule>, b: seq<Rule>, prio: nat, at: bool)
    ensures Select(a + b, prio, at) == Select(a, prio, at) + Select(b, prio, at)
  {
    if b == [] {
      assert a + b == a;
    } else {
      SelectConcat(a, b[..|b| - 1], prio, at);
      assert (a + b)[..|a + b| - 1] == a + b[..|b| - 1];
    }
  }

  lemma SelectSnoc(front: seq<Rule>, r: Rule, prio: nat, at: bool)
    ensures Select(front + [r], prio, at) == Select(front, prio, at) + if (r.prio == prio) == at then [r] else []
  {
    assert (front + [r])[..|front|] == front;
  }

  lemma SelectAround(a: seq<Rule>, r: Rule, b: seq<Rule>, prio: nat, at: bool)
    ensures Select(a + [r] + b, prio, at) ==
      Select(a, prio, at) + (if (r.prio == prio) == at then [r] else []) + Select(b, prio, at)
  {
    SelectConcat(a + [r], b, prio, at);
    SelectSnoc(a, r, prio, at);
  }

  lemma {:induction false} SelectMembership(rules: seq<Rule>, prio: nat, at: bool)
    ensures forall r :: r in Select(rules, prio, at) <==> r in rules && (r.prio == prio) == at
  {
    if rules != [] {
      SelectMembership(rules[..|rules| - 1], prio, at);
      assert rules == rules[..|rules| - 1] + [rules[|rules| - 1]];
    }
  }

  lemma {:induction false} AtOfOthers(rules: seq<Rule>, prio: nat, other: nat)
    requires prio != other
    ensures At(Others(rules, other), prio) == At(rules, prio)
  {
    if rules != [] {
      var front, r := rules[..|rules| - 1], rules[|rules| - 1];
      AtOfOthers(front, prio, other);
      SelectSnoc(Others(front, other), r, prio, true);
      assert Others(front, other) + [] == Others(front, other) && At(front, prio) + [] == At(front, prio);
    }
  }

  lemma OthersTwice(front: seq<Rule>, last: Rule, a: nat, b: nat)
    ensures Others(Others(front + [last], a), b) ==
      Others(Others(front, a), b) + if last.prio != a && last.prio != b then [last] else []
  {
    SelectSnoc(front, last, a, false);
    if last.prio != a {
      SelectSnoc(Others(front, a), last, b, false);
    }
    assert Others(front, a) + [] == Others(front, a);
  }

  lemma {:induction false} OthersCommute(rules: seq<Rule>, a: nat, b: nat)
    ensures Others(Others(rules, a), b) == Others(Others(rules, b), a)
  {
    if rules != [] {
      var front, last := rules[..|rules| - 1], rules[|rules| - 1];
      OthersCommute(front, a, b);
      assert rules == front + [last];
      OthersTwice(front, last, a, b);
      OthersTwice(front, last, b, a);
    }
  }

  /** The first rule at a priority, and what is left without it. */
  lemma {:induction false} FirstAt(rules: seq<Rule>, prio: nat) returns (i: nat)
    requires At(rules, prio) != []
    ensures i < |rules| && rules[i].prio == prio && forall r :: r in rules[..i] ==> r.prio != prio
    ensures At(rules, prio) == [rules[i]] + At(rules[i + 1..], prio)
    ensures Others(rules, prio) == Others(rules[..i], prio) + Others(rules[i + 1..], prio)
    ensures At(rules[..i], prio) == []
  {
    SelectMembership(rules, prio, true);
    assert At(rules, prio)[0] in At(rules, prio);
    i := FirstIndex(rules, prio);
    assert rules == rules[..i] + [rules[i]] + rules[i + 1..];
    FilterFirst(rules[..i], rules[i], rules[i + 1..], prio);
  }

  lemma FilterFirst(a: seq<Rule>, x: Rule, b: seq<Rule>, prio: nat)
    requires x.prio == prio && forall r :: r in a ==> r.prio != prio
    ensures At(a, prio) == [] && At(a + [x] + b, prio) == [x] + At(b, prio)
    ensures Others(a + [x] + b, prio) == Others(a, prio) + Others(b, prio)
  {
    NoneAt(a, prio);
    SelectAround(a, x, b, prio, true);
    SelectAround(a, x, b, prio, false);
  }

  lemma {:induction false} FirstIndex(rules: seq<Rule>, prio: nat) returns (i: nat)
    requires exists r :: r in rules && r.prio == prio
    ensures i < |rules| && rules[i].prio == prio && forall r :: r in rules[..i] ==> r.prio != prio
  {
    if rules[0].prio == prio {
      i := 0;
    } else {
      assert rules == [rules[0]] + rules[1..];
      var j := FirstIndex(rules[1..], prio);
      i := j + 1;
      assert rules[..i] == [rules[0]] + rules[1..][..j];
    }
  }

  lemma {:induction false} NoneAt(rules: seq<Rule>, prio: nat)
    requires forall r :: r in rules ==> r.prio != prio
    ensures At(rules, prio) == []
  {
    if rules != [] {
      NoneAt(rules[..|rules| - 1], prio);
      assert rules[|rules| - 1] in rules;
    }
  }

  // ---- facts about the queue ----

  lemma {:induction false} CopiesPresent(rules: seq<Rule>, x: Rule)
    ensures Copies(rules, x) <= |rules|
    ensures Copies(rules, x) > 0 <==> x in rules
  {
    if rules != [] {
      CopiesPresent(rules[..|rules| - 1], x);
      assert rules == rules[..|rules| - 1] + [rules[|rules| - 1]];
    }
  }

  lemma {:induction false} CopiesAll(rules: seq<Rule>, x: Rule)
    ensures Copies(rules, x) == |rules| <==> forall i :: 0 <= i < |rules| ==> rules[i] == x
    ensures Copies(rules, x) == |rules| <==> forall r :: r in rules ==> r == x
  {
    if rules != [] {
      var front := rules[..|rules| - 1];
      CopiesPresent(front, x);
      CopiesAll(front, x);
      assert forall i :: 0 <= i < |front| ==> front[i] == rules[i];
    }
    assert forall i :: 0 <= i < |rules| ==> rules[i] in rules;
  }

  lemma ShadowedSnoc(front: seq<Rule>, r: Rule, want: Rule)
    requires want != General(want)
    ensures Shadowed(front + [r], want) <==> Shadowed(front, want) || (want in front && r == General(want))
  {
    var all := front + [r];
    assert forall i :: 0 <= i < |front| ==> all[i] == front[i];
    assert all[|front|] == r;
    if Shadowed(front, want) {
      var i, j :| 0 <= i < j < |front| && front[i] == want && front[j] == General(want);
      assert all[i] == want && all[j] == General(want);
    }
    if want in front && r == General(want) {
      var i :| 0 <= i < |front| && front[i] == want;
      assert all[i] == want;
    }
  }

  /** The sweep leaves as many rules as there were copies of want, each want or general, and all of them want
      exactly when no general rule followed one. */
  lemma {:induction false} QueueFacts(rules: seq<Rule>, want: Rule)
    requires want != General(want)
    ensures |Queue(rules, want)| == Copies(rules, want)
    ensures forall r :: r in Queue(rules, want) ==> r == want || r == General(want)
    ensures (forall r :: r in Queue(rules, want) ==> r == want) <==> !Shadowed(rules, want)
  {
    if rules != [] {
      var front, r := rules[..|rules| - 1], rules[|rules| - 1];
      var queue := Queue(front, want);
      QueueFacts(front, want);
      CopiesPresent(front, want);
      assert rules == front + [r];
      ShadowedSnoc(front, r, want);
      var next := Queue(rules, want);
      if r == want {
        assert next == queue + [r] && forall x :: x in queue ==> x in next;
      } else if r == General(want) && queue != [] {
        assert next == queue[1..] + [r] && r in next;
        assert forall x :: x in queue[1..] ==> x in queue;
      }
    }
  }

  lemma {:induction false} QueueOfAt(rules: seq<Rule>, want: Rule)
    ensures Queue(At(rules, want.prio), want) == Queue(rules, want)
    ensures Copies(At(rules, want.prio), want) == Copies(rules, want)
  {
    if rules != [] {
      var front, r := rules[..|rules| - 1], rules[|rules| - 1];
      QueueOfAt(front, want);
      var at := At(front, want.prio);
      assert (at + [r])[..|at|] == at && at + [] == at;
    }
  }

  // ---- facts about the kernel's delete and add ----

  lemma {:induction false} DeletesAt(a: seq<Rule>, x: Rule, b: seq<Rule>, r: Rule)
    requires (forall y :: y in a ==> !Covers(r, y)) && Covers(r, x)
    ensures RuleDel(a + [x] + b, r) == Some(a + b)
  {
    if a == [] {
      assert a + [x] + b == [x] + b;
      assert a + b == b;
    } else {
      DeletesAt(a[1..], x, b, r);
      assert a[0] in a && (a + [x] + b)[1..] == a[1..] + [x] + b;
      assert [a[0]] + (a[1..] + b) == a + b;
    }
  }

  lemma {:induction false} AddSplits(rules: seq<Rule>, r: Rule) returns (a: seq<Rule>, b: seq<Rule>)
    ensures rules == a + b && RuleAdd(rules, r) == a + [r] + b
  {
    if rules == [] || rules[0].prio > r.prio {
      a, b := [], rules;
      assert a + [r] + b == [r] + rules;
    } else {
      var a', b' := AddSplits(rules[1..], r);
      a, b := [rules[0]] + a', b';
      assert rules == [rules[0]] + rules[1..] == a + b;
      assert [rules[0]] + (a' + [r] + b') == a + [r] + b;
    }
  }

  lemma {:induction false} AddOrdered(rules: seq<Rule>, r: Rule)
    requires Ordered(rules)
    ensures Ordered(RuleAdd(rules, r))
  {
    if rules != [] && rules[0].prio <= r.prio {
      AddOrdered(rules[1..], r);
      var a, b := AddSplits(rules[1..], r);
      forall y | y in rules[1..]
        ensures rules[0].prio <= y.prio
      {
        var i :| 1 <= i < |rules| && rules[i] == y;
      }
      OrderedCons(rules[0], RuleAdd(rules[1..], r));
    }
  }

  lemma OrderedCons(x: Rule, rest: seq<Rule>)
    requires Ordered(rest) && forall y :: y in rest ==> x.prio <= y.prio
    ensures Ordered([x] + rest)
  {
  }

  // ---- the sweep ----

  /** kept is what the sweep has left of the listed rules front. */
  ghost predicate Swept(front: seq<Rule>, want: Rule, kept: seq<Rule>) {
    && Others(kept, want.prio) == Others(front, want.prio)
    && At(kept, want.prio) == Queue(front, want)
    && (forall r :: r in kept ==> r in front)
    && (Ordered(front) ==> Ordered(kept))
  }

  lemma OrderedSnoc(kept: seq<Rule>, front: seq<Rule>, r: Rule)
    requires Ordered(front + [r]) && (Ordered(front) ==> Ordered(kept)) && forall x :: x in kept ==> x in front
    ensures Ordered(kept + [r])
  {
    var all := front + [r];
    assert Ordered(front) by {
      assert forall i :: 0 <= i < |front| ==> all[i] == front[i];
    }
    forall x | x in front
      ensures x.prio <= r.prio
    {
      var i :| 0 <= i < |front| && front[i] == x;
      assert all[i] == x && all[|front|] == r;
    }
  }

  /** A rule of another priority, or a copy of want, stays. */
  lemma LookStays(front: seq<Rule>, r: Rule, want: Rule, kept: seq<Rule>)
    requires Swept(front, want, kept) && (r.prio != want.prio || r == want) && want != General(want)
    ensures Swept(front + [r], want, kept + [r])
  {
    SelectSnoc(kept, r, want.prio, true);
    SelectSnoc(kept, r, want.prio, false);
    SelectSnoc(front, r, want.prio, false);
    assert (front + [r])[..|front|] == front;
    if Ordered(front + [r]) {
      OrderedSnoc(kept, front, r);
    }
  }

  /** Any other rule at this priority removes itself: it covers neither want nor the general rule. */
  lemma LookDrops(front: seq<Rule>, r: Rule, rest: seq<Rule>, want: Rule, kept: seq<Rule>)
    requires Specific(want) && Swept(front, want, kept)
    requires r.prio == want.prio && r != want && (r == General(want) ==> At(kept, want.prio) == [])
    ensures RuleDel(kept + [r] + rest, r) == Some(kept + rest)
    ensures Swept(front + [r], want, kept)
  {
    SelectSnoc(front, r, want.prio, false);
    assert (front + [r])[..|front|] == front;
    QueueFacts(front, want);
    SelectMembership(kept, want.prio, true);
    DeletesAt(kept, r, rest, r);
    if Ordered(front + [r]) {
      OrderedSnoc(kept, front, r);
      assert forall i :: 0 <= i < |kept| ==> (kept + [r])[i] == kept[i];
    }
  }

  /** The general rule removes the first rule the sweep has kept, and stays itself. */
  lemma LookEats(front: seq<Rule>, rest: seq<Rule>, want: Rule, kept: seq<Rule>) returns (kept': seq<Rule>)
    requires Specific(want) && Swept(front, want, kept) && At(kept, want.prio) != []
    ensures RuleDel(kept + [General(want)] + rest, General(want)) == Some(kept' + rest)
    ensures Swept(front + [General(want)], want, kept')
  {
    var g := General(want);
    var i := FirstAt(kept, want.prio);
    kept' := kept[..i] + kept[i + 1..] + [g];
    QueueFacts(front, want);
    assert kept[i] in At(kept, want.prio);
    DeletesFirst(kept, i, g, rest);
    EatenFilters(front, want, kept, i);
    if Ordered(front + [g]) {
      OrderedSnoc(kept, front, g);
      OrderedWithout(kept, g, i);
    }
  }

  lemma DeletesFirst(kept: seq<Rule>, i: nat, g: Rule, rest: seq<Rule>)
    requires i < |kept| && Covers(g, kept[i]) && forall r :: r in kept[..i] ==> r.prio != g.prio
    ensures RuleDel(kept + [g] + rest, g) == Some(kept[..i] + kept[i + 1..] + [g] + rest)
  {
    var a, b := kept[..i], kept[i + 1..];
    assert kept + [g] + rest == a + [kept[i]] + (b + [g] + rest);
    DeletesAt(a, kept[i], b + [g] + rest, g);
    assert a + (b + [g] + rest) == a + b + [g] + rest;
  }

  lemma OrderedWithout(kept: seq<Rule>, g: Rule, i: nat)
    requires Ordered(kept + [g]) && i < |kept|
    ensures Ordered(kept[..i] + kept[i + 1..] + [g])
  {
    var all, less := kept + [g], kept[..i] + kept[i + 1..] + [g];
    assert forall k :: 0 <= k < |less| ==> less[k] == all[if k < i then k else k + 1];
  }

  lemma EatenFilters(front: seq<Rule>, want: Rule, kept: seq<Rule>, i: nat)
    requires Swept(front, want, kept) && i < |kept| && want != General(want)
    requires At(kept, want.prio) == [kept[i]] + At(kept[i + 1..], want.prio) && At(kept[..i], want.prio) == []
    requires Others(kept, want.prio) == Others(kept[..i], want.prio) + Others(kept[i + 1..], want.prio)
    ensures var g, kept' := General(want), kept[..i] + kept[i + 1..] + [General(want)];
      && Others(kept', want.prio) == Others(front + [g], want.prio)
      && At(kept', want.prio) == Queue(front + [g], want)
  {
    var g, a, b := General(want), kept[..i], kept[i + 1..];
    EatenSelect(a, b, g, true);
    EatenSelect(a, b, g, false);
    SelectSnoc(front, g, want.prio, false);
    QueueGeneral(front, want, kept[i], At(b, want.prio));
  }

  lemma QueueGeneral(front: seq<Rule>, want: Rule, x: Rule, rest: seq<Rule>)
    requires want != General(want) && Queue(front, want) == [x] + rest
    ensures Queue(front + [General(want)], want) == rest + [General(want)]
  {
    QueueSnoc(front, want);
    TailSnoc(x, rest, General(want));
  }

  lemma QueueSnoc(front: seq<Rule>, want: Rule)
    requires want != General(want)
    ensures Queue(front + [General(want)], want) == (Queue(front, want) + [General(want)])[1..]
  {
    assert (front + [General(want)])[..|front|] == front;
  }

  lemma TailSnoc(x: Rule, rest: seq<Rule>, g: Rule)
    ensures ([x] + rest + [g])[1..] == rest + [g]
  {
  }

  lemma EatenSelect(a: seq<Rule>, b: seq<Rule>, g: Rule, at: bool)
    ensures Select(a + b + [g], g.prio, at) == Select(a, g.prio, at) + Select(b, g.prio, at) + if at then [g] else []
  {
    SelectConcat(a, b, g.prio, at);
    SelectSnoc(a + b, g, g.prio, at);
  }

  lemma SweepOneMore(rules: seq<Rule>, n: nat, want: Rule)
    requires 0 < n <= |rules|
    ensures SweepAll(rules, rules[..n], want) == Look(SweepAll(rules, rules[..n - 1], want), rules[n - 1], want)
    ensures rules[..n] == rules[..n - 1] + [rules[n - 1]] && rules[n - 1..] == [rules[n - 1]] + rules[n..]
  {
    assert rules[..n][..n - 1] == rules[..n - 1];
  }

  /** One listed rule. */
  lemma LookStep(front: seq<Rule>, r: Rule, rest: seq<Rule>, want: Rule, kept: seq<Rule>, found: bool)
    returns (kept': seq<Rule>)
    requires Specific(want) && Swept(front, want, kept)
    ensures Look(Sweep(kept + ([r] + rest), found, true), r, want) == Sweep(kept' + rest, found || r == want, true)
    ensures Swept(front + [r], want, kept')
  {
    ConcatAssociative(kept, [r], rest);
    if r.prio != want.prio || r == want {
      kept' := kept + [r];
      LookStays(front, r, want, kept);
    } else if r == General(want) && At(kept, want.prio) != [] {
      kept' := LookEats(front, rest, want, kept);
    } else {
      kept' := kept;
      LookDrops(front, r, rest, want, kept);
    }
  }

  lemma {:induction false} SweepLeaves(rules: seq<Rule>, n: nat, want: Rule) returns (kept: seq<Rule>)
    requires Specific(want) && n <= |rules|
    ensures SweepAll(rules, rules[..n], want) == Sweep(kept + rules[n..], want in rules[..n], true)
    ensures Swept(rules[..n], want, kept)
  {
    if n == 0 {
      kept := [];
      assert rules[0..] == rules && [] + rules == rules;
    } else {
      var before := SweepLeaves(rules, n - 1, want);
      SweepOneMore(rules, n, want);
      kept := LookStep(rules[..n - 1], rules[n - 1], rules[n..], want, before, want in rules[..n - 1]);
    }
  }

  // ---- what ensureRule leaves ----

  /** What one call makes of the rules at its priority. */
  function Turn(at: seq<Rule>, want: Rule): seq<Rule> {
    if want in at then Queue(at, want) else [want]
  }

  lemma TurnFacts(at: seq<Rule>, want: Rule)
    requires want != General(want)
    ensures |Turn(at, want)| == if Copies(at, want) == 0 then 1 else Copies(at, want)
    ensures forall r :: r in Turn(at, want) ==> r == want || r == General(want)
    ensures (forall r :: r in Turn(at, want) ==> r == want) <==> !Shadowed(at, want)
  {
    QueueFacts(at, want);
    CopiesPresent(at, want);
    assert forall i :: 0 <= i < |at| ==> at[i] in at;
  }

  lemma ShadowedAt(rules: seq<Rule>, want: Rule)
    requires want != General(want)
    ensures Shadowed(At(rules, want.prio), want) <==> Shadowed(rules, want)
    ensures want in At(rules, want.prio) <==> want in rules
  {
    QueueFacts(rules, want);
    QueueFacts(At(rules, want.prio), want);
    QueueOfAt(rules, want);
    SelectMembership(rules, want.prio, true);
  }

  /** Over any rule list a call succeeds, turns the rules at its priority, and leaves all others as they are. */
  lemma EnsuredTurns(rules: seq<Rule>, want: Rule)
    requires Specific(want)
    ensures var after := Ensured(rules, want);
      && after.1
      && At(after.0, want.prio) == Turn(At(rules, want.prio), want)
      && Others(after.0, want.prio) == Others(rules, want.prio)
      && (Ordered(rules) ==> Ordered(after.0))
  {
    assert rules[..|rules|] == rules;
    var kept := SweepLeaves(rules, |rules|, want);
    assert kept + rules[|rules|..] == kept;
    QueueOfAt(rules, want);
    ShadowedAt(rules, want);
    if want !in rules {
      QueueFacts(rules, want);
      CopiesPresent(rules, want);
      AddedAlone(kept, want);
    }
  }

  lemma AddedAlone(kept: seq<Rule>, want: Rule)
    requires At(kept, want.prio) == []
    ensures At(RuleAdd(kept, want), want.prio) == [want]
    ensures Others(RuleAdd(kept, want), want.prio) == Others(kept, want.prio)
    ensures Ordered(kept) ==> Ordered(RuleAdd(kept, want))
  {
    var a, b := AddSplits(kept, want);
    AtAround(a, want, b);
    OthersAround(a, want, b);
    if Ordered(kept) {
      AddOrdered(kept, want);
    }
  }

  lemma AtAround(a: seq<Rule>, r: Rule, b: seq<Rule>)
    requires At(a + b, r.prio) == []
    ensures At(a + [r] + b, r.prio) == [r]
  {
    SelectConcat(a, b, r.prio, true);
    SelectAround(a, r, b, r.prio, true);
  }

  lemma OthersAround(a: seq<Rule>, r: Rule, b: seq<Rule>)
    ensures Others(a + [r] + b, r.prio) == Others(a + b, r.prio)
  {
    SelectConcat(a, b, r.prio, false);
    SelectAround(a, r, b, r.prio, false);
  }

  /** Every rule at want's priority is want, there is one, and the rules of other priorities are the old ones, in
      order. */
  ghost predicate Alone(rules: seq<Rule>, want: Rule, before: seq<Rule>) {
    && At(rules, want.prio) != [] && (forall r :: r in At(rules, want.prio) ==> r == want)
    && Others(rules, want.prio) == Others(before, want.prio)
    && (Ordered(before) ==> Ordered(rules))
  }

  /** ensureRule leaves the desired rule alone at its priority, with every other priority untouched, if and only if
      the general rule of the same table is not listed after it. It reports success all the same, and what it leaves
      is as many rules as there were copies of the desired one, each that one or the general one. */
  lemma EnsureRuleIff(rules: seq<Rule>, want: Rule)
    requires Specific(want)
    ensures Ensured(rules, want).1
    ensures Alone(Ensured(rules, want).0, want, rules) <==> !Shadowed(rules, want)
    ensures var at := At(Ensured(rules, want).0, want.prio);
      && |at| == (if Copies(rules, want) == 0 then 1 else Copies(rules, want))
      && forall r :: r in at ==> r == want || r == General(want)
    ensures Shadowed(rules, want) && Copies(rules, want) == 1 ==> Alone(Ensured(rules, want).0, General(want), rules)
  {
    EnsuredTurns(rules, want);
    ShadowedAt(rules, want);
    QueueOfAt(rules, want);
    TurnFacts(At(rules, want.prio), want);
    if Shadowed(rules, want) && Copies(rules, want) == 1 {
      OneCopyLost(At(rules, want.prio), want);
    }
  }

  lemma OneCopyLost(at: seq<Rule>, want: Rule)
    requires want != General(want) && Shadowed(at, want) && Copies(at, want) == 1
    ensures Turn(at, want) == [General(want)]
  {
    TurnFacts(at, want);
    var queue := Turn(at, want);
    assert queue == [queue[0]] && queue[0] in queue;
  }

  /** When the list held the first rule at most once, a second call, for it or another rule of that table, is exact. */
  lemma SecondCallIsExact(rules: seq<Rule>, first: Rule, second: Rule)
    requires Specific(first) && Specific(second) && (first == second ==> Copies(rules, first) <= 1)
    requires first.prio == second.prio && General(first) == General(second)
    ensures Alone(Ensured(Ensured(rules, first).0, second).0, second, rules)
  {
    EnsuredTurns(rules, first);
    var once := Ensured(rules, first).0;
    EnsuredTurns(once, second);
    QueueOfAt(rules, first);
    var at, wants := At(rules, first.prio), [first, second];
    assert wants[..1] == [first] && [first][..0] == [] && Turns(at, []) == at;
    assert Turns(at, [first]) == Turn(at, first);
    assert first != second ==> wants[1] != wants[0];
    TurnsConverge(at, wants);
  }

  /** Repeating a call that left its rule alone changes nothing. */
  lemma {:induction false} RepeatSweeps(rules: seq<Rule>, n: nat, want: Rule)
    requires n <= |rules| && forall r :: r in rules && r.prio == want.prio ==> r == want
    ensures SweepAll(rules, rules[..n], want) == Sweep(rules, want in rules[..n], true)
  {
    if n > 0 {
      RepeatSweeps(rules, n - 1, want);
      SweepOneMore(rules, n, want);
      assert rules[n - 1] in rules;
    }
  }

  lemma RepeatIsIdle(rules: seq<Rule>, want: Rule, before: seq<Rule>)
    requires Alone(rules, want, before)
    ensures Ensured(rules, want) == (rules, true)
  {
    SelectMembership(rules, want.prio, true);
    assert At(rules, want.prio)[0] in At(rules, want.prio);
    assert forall r :: r in rules && r.prio == want.prio ==> r in At(rules, want.prio);
    RepeatSweeps(rules, |rules|, want);
    assert rules[..|rules|] == rules;
  }

  // ---- any sequence of calls, at one priority ----

  function Turns(at: seq<Rule>, wants: seq<Rule>): seq<Rule> {
    if wants == [] then at else Turn(Turns(at, wants[..|wants| - 1]), wants[|wants| - 1])
  }

  ghost predicate SameGeneral(wants: seq<Rule>) {
    && (forall i :: 0 <= i < |wants| ==> wants[i] != General(wants[i]))
    && forall i, j :: 0 <= i < j < |wants| ==> General(wants[i]) == General(wants[j])
  }

  ghost predicate AllSame(wants: seq<Rule>) {
    forall i :: 0 <= i < |wants| ==> wants[i] == wants[0]
  }

  /** Either the last rule is alone, or all calls were for it and each has cost it a copy. */
  lemma {:induction false} TurnsSettle(at: seq<Rule>, wants: seq<Rule>)
    requires wants != [] && SameGeneral(wants)
    ensures var queue, want, copies := Turns(at, wants), wants[|wants| - 1], Copies(at, wants[0]);
      && 1 <= |queue| <= (if copies == 0 then 1 else copies)
      && (forall r :: r in queue ==> r == want || r == General(want))
      && (Copies(queue, want) == |queue| || (AllSame(wants) && Copies(queue, want) + |wants| <= copies))
  {
    var front, want := wants[..|wants| - 1], wants[|wants| - 1];
    var before := Turns(at, front);
    TurnFacts(before, want);
    CopiesPresent(before, want);
    CopiesPresent(Turn(before, want), want);
    CopiesAll(Turn(before, want), want);
    if front == [] {
      assert before == at;
    } else {
      TurnsSettle(at, front);
      var last := front[|front| - 1];
      if last != want || Copies(before, last) == |before| {
        AloneStays(before, want, last);
      }
    }
  }

  /** Over rules of one call, the next is exact unless it is for the same rule and a general one has been left. */
  lemma AloneStays(before: seq<Rule>, want: Rule, last: Rule)
    requires want != General(want) && General(last) == General(want)
    requires forall r :: r in before ==> r == last || r == General(last)
    requires last != want || Copies(before, last) == |before|
    ensures Copies(Turn(before, want), want) == |Turn(before, want)|
  {
    CopiesAll(before, last);
    TurnFacts(before, want);
    CopiesAll(Turn(before, want), want);
    assert forall i :: 0 <= i < |before| ==> before[i] in before;
  }

  /** Calls for rules of one table leave the last rule alone once the rule has changed, or once there have been more
      calls than the list held copies of the first. */
  lemma TurnsConverge(at: seq<Rule>, wants: seq<Rule>)
    requires wants != [] && SameGeneral(wants) && (!AllSame(wants) || |wants| > Copies(at, wants[0]))
    ensures Turns(at, wants) != [] && forall r :: r in Turns(at, wants) ==> r == wants[|wants| - 1]
    ensures |Turns(at, wants)| <= (if Copies(at, wants[0]) == 0 then 1 else Copies(at, wants[0]))
  {
    TurnsSettle(at, wants);
    CopiesAll(Turns(at, wants), wants[|wants| - 1]);
  }

  // ---- ensureRouting over any sequence of peer ranges ----

  /** The rules after one ensureRouting per range. */
  function RulesAfter(rules: seq<Rule>, ranges: seq<Prefix>): seq<Rule> {
    if ranges == [] then rules else RoutedRules(RulesAfter(rules, ranges[..|ranges| - 1]), ranges[|ranges| - 1]).0
  }

  /** The rules at priorities the agent does not own, in order. */
  function Foreign(rules: seq<Rule>): seq<Rule> {
    Others(Others(rules, 90), 102)
  }

  /** At preferences 90 and 102 there are only the desired rules, and there is one at each; the rules of all other owners
      are those of before, in order. */
  ghost predicate BothAlone(rules: seq<Rule>, p: Prefix, before: seq<Rule>) {
    && (Ordered(before) ==> Ordered(rules))
    && At(rules, 90) != [] && (forall r :: r in At(rules, 90) ==> r == PeerRule(p))
    && At(rules, 102) != [] && (forall r :: r in At(rules, 102) ==> r == BLACKHOLE_RULE)
    && Foreign(rules) == Foreign(before)
  }

  lemma AtUnlessTouched(a: seq<Rule>, b: seq<Rule>, prio: nat, other: nat)
    requires Others(a, other) == Others(b, other) && prio != other
    ensures At(a, prio) == At(b, prio)
  {
    AtOfOthers(a, prio, other);
    AtOfOthers(b, prio, other);
  }

  /** One call, over any rules: it succeeds, turns the rules at its two priorities and touches no other. */
  lemma OneCall(rules: seq<Rule>, p: Prefix)
    ensures var after := RoutedRules(rules, p);
      && after.1
      && At(after.0, PEER_PREF) == Turn(At(rules, PEER_PREF), PeerRule(p))
      && At(after.0, BLACKHOLE_PREF) == Turn(At(rules, BLACKHOLE_PREF), BLACKHOLE_RULE)
      && Foreign(after.0) == Foreign(rules)
      && (Ordered(rules) ==> Ordered(after.0))
  {
    EnsuredTurns(rules, PeerRule(p));
    var first := Ensured(rules, PeerRule(p)).0;
    EnsuredTurns(first, BLACKHOLE_RULE);
    var after := Ensured(first, BLACKHOLE_RULE).0;
    AtUnlessTouched(after, first, PEER_PREF, BLACKHOLE_PREF);
    AtUnlessTouched(first, rules, BLACKHOLE_PREF, PEER_PREF);
    OthersCommute(after, PEER_PREF, BLACKHOLE_PREF);
    OthersCommute(first, PEER_PREF, BLACKHOLE_PREF);
  }

  /** One call of ensureRouting leaves only the two desired rules at their priorities, and every other priority as it
      was, if and only if neither rule was listed before the unrestricted rule of its table. */
  lemma OneCallIff(rules: seq<Rule>, p: Prefix)
    ensures BothAlone(RoutedRules(rules, p).0, p, rules) <==>
      !Shadowed(rules, PeerRule(p)) && !Shadowed(rules, BLACKHOLE_RULE)
  {
    OneCall(rules, p);
    ShadowedAt(rules, PeerRule(p));
    ShadowedAt(rules, BLACKHOLE_RULE);
    TurnFacts(At(rules, PEER_PREF), PeerRule(p));
    TurnFacts(At(rules, BLACKHOLE_PREF), BLACKHOLE_RULE);
  }

  /** The smallest failing input: the desired rule followed by the unrestricted one of its table and priority. The
      call reports success and leaves only the latter. */
  lemma ShadowedExample(p: Prefix)
    ensures var w := PeerRule(p);
      && Ordered([w, General(w)])
      && Ensured([w, General(w)], w) == ([General(w)], true)
  {
    var w := PeerRule(p);
    var rules := [w, General(w)];
    assert rules[..1] == [w] && rules[..1][..0] == [] && rules[1..] == [General(w)];
    assert SweepAll(rules, [w], w) == Sweep(rules, true, true);
  }

  function PeerRules(ranges: seq<Prefix>): seq<Rule> {
    seq(|ranges|, i requires 0 <= i < |ranges| => PeerRule(ranges[i]))
  }

  function BlackholeRules(n: nat): seq<Rule> {
    seq(n, _ => BLACKHOLE_RULE)
  }

  lemma {:induction false} CallsTurn(rules: seq<Rule>, ranges: seq<Prefix>)
    ensures var after := RulesAfter(rules, ranges);
      && At(after, PEER_PREF) == Turns(At(rules, PEER_PREF), PeerRules(ranges))
      && At(after, BLACKHOLE_PREF) == Turns(At(rules, BLACKHOLE_PREF), BlackholeRules(|ranges|))
      && Foreign(after) == Foreign(rules)
      && (Ordered(rules) ==> Ordered(after))
  {
    if ranges != [] {
      var front := ranges[..|ranges| - 1];
      CallsTurn(rules, front);
      OneCall(RulesAfter(rules, front), ranges[|ranges| - 1]);
      assert PeerRules(ranges)[..|ranges| - 1] == PeerRules(front);
      assert BlackholeRules(|ranges|)[..|ranges| - 1] == BlackholeRules(|front|);
    }
  }

  /** Convergence over peerCIDR changes, from any rules whatever: once there have been more calls than the list held
      copies of the blackhole rule and of the first range's rule (or the range has changed), the two rules of the last
      range are alone at their priorities, and the rules of every other priority are the original ones in order. With
      at most one copy of each, as the kernel has when nobody else writes there, two calls are enough, and leave
      exactly one rule at each priority. */
  lemma RulesConverge(rules: seq<Rule>, ranges: seq<Prefix>)
    requires ranges != [] && |ranges| > Copies(rules, BLACKHOLE_RULE)
    requires |ranges| > Copies(rules, PeerRule(ranges[0])) || exists i :: 0 <= i < |ranges| && ranges[i] != ranges[0]
    ensures var after := RulesAfter(rules, ranges);
      && BothAlone(after, ranges[|ranges| - 1], rules)
      && (Copies(rules, PeerRule(ranges[0])) <= 1 ==> |At(after, PEER_PREF)| == 1)
      && (Copies(rules, BLACKHOLE_RULE) <= 1 ==> |At(after, BLACKHOLE_PREF)| == 1)
  {
    CallsTurn(rules, ranges);
    QueueOfAt(rules, PeerRule(ranges[0]));
    QueueOfAt(rules, BLACKHOLE_RULE);
    PeersConverge(At(rules, PEER_PREF), ranges);
    BlackholesConverge(At(rules, BLACKHOLE_PREF), |ranges|);
  }

  lemma PeersConverge(at: seq<Rule>, ranges: seq<Prefix>)
    requires ranges != []
    requires |ranges| > Copies(at, PeerRule(ranges[0])) || exists i :: 0 <= i < |ranges| && ranges[i] != ranges[0]
    ensures var after := Turns(at, PeerRules(ranges));
      && after != [] && (forall r :: r in after ==> r == PeerRule(ranges[|ranges| - 1]))
      && (Copies(at, PeerRule(ranges[0])) <= 1 ==> |after| == 1)
  {
    var peers := PeerRules(ranges);
    if i :| 0 <= i < |ranges| && ranges[i] != ranges[0] {
      assert peers[i] != peers[0];
    }
    TurnsConverge(at, peers);
  }

  lemma BlackholesConverge(at: seq<Rule>, n: nat)
    requires n > Copies(at, BLACKHOLE_RULE)
    ensures var after := Turns(at, BlackholeRules(n));
      && after != [] && (forall r :: r in after ==> r == BLACKHOLE_RULE)
      && (Copies(at, BLACKHOLE_RULE) <= 1 ==> |after| == 1)
  {
    TurnsConverge(at, BlackholeRules(n));
  }

  /** And from then on repeating the call changes nothing. */
  lemma CallIsIdle(rules: seq<Rule>, p: Prefix, before: seq<Rule>)
    requires BothAlone(rules, p, before)
    ensures RoutedRules(rules, p) == (rules, true)
  {
    RepeatIsIdle(rules, PeerRule(p), rules);
    RepeatIsIdle(rules, BLACKHOLE_RULE, rules);
  }

  // ---- the path of a packet ----

  datatype Packet = Packet(dst: Addr, iif: string)

  predicate Applies(r: Rule, pkt: Packet) {
    (r.dst.Some? ==> Contains(r.dst.value, pkt.dst)) && (r.iif.Some? ==> r.iif.value == pkt.iif)
  }

  ghost predicate HasRoute(routes: RoutingTable, a: Addr) {
    exists p :: p in routes && Contains(p, a)
  }

  /** Rule i is consulted: it applies, and no earlier rule that applies found a route in its table. */
  ghost predicate Consulted(rules: seq<Rule>, tables: Tables, pkt: Packet, i: nat) {
    && i < |rules| && Applies(rules[i], pkt)
    && forall j :: 0 <= j < i && Applies(rules[j], pkt) ==> !HasRoute(Routes(tables, rules[j].table), pkt.dst)
  }

  /** a is routed to target by the longest prefix of routes that contains it. */
  ghost predicate RoutesTo(routes: RoutingTable, a: Addr, target: Target) {
    exists p :: p in routes && Contains(p, a) && routes[p] == target && forall q :: q in routes && Contains(q, a) ==> q.bits <= p.bits
  }

  /** With the blackhole rule, in either form, somewhere in the list and its table's default in place, a packet that
      arrived on wg0 is never shown to a rule behind preference 102, whatever rules others place and whatever any
      table holds. */
  lemma StopsAtBlackhole(rules: seq<Rule>, tables: Tables, pkt: Packet, b: Rule, i: nat)
    requires Ordered(rules) && b in rules && (b == BLACKHOLE_RULE || b == General(BLACKHOLE_RULE))
    requires EVERYWHERE in Routes(tables, BLACKHOLE_TABLE) && pkt.iif == WG
    requires Consulted(rules, tables, pkt, i)
    ensures rules[i].prio <= BLACKHOLE_PREF
  {
    var k :| 0 <= k < |rules| && rules[k] == b;
    ZeroLengthContainsAll(EVERYWHERE, pkt.dst);
    assert HasRoute(Routes(tables, b.table), pkt.dst);
    if k < i {
      assert Applies(rules[k], pkt);
    }
  }

  /** Server fail-closed routing: after any call of ensureRouting, from any rules and any tables, a packet from a peer
      is answered at preference 102 at the latest: never by the main table's rule. There, if nobody else has put a
      route into the agent's table, it is dropped. */
  lemma PeerTrafficFailsClosed(rules: seq<Rule>, tables: Tables, p: Prefix, pkt: Packet, i: nat)
    requires Ordered(rules) && pkt.iif == "wg0" && Consulted(RoutedRules(rules, p).0, Routed(tables, p), pkt, i)
    ensures RoutedRules(rules, p).1
    ensures RoutedRules(rules, p).0[i].prio <= 102
    ensures RoutedRules(rules, p).0[i].prio == 102 ==> RoutedRules(rules, p).0[i].table == 51822
    ensures Routes(tables, 51822).Keys <= {EVERYWHERE} ==> RoutesTo(Routes(Routed(tables, p), 51822), pkt.dst, Blackhole)
  {
    var b := BlackholeLeft(rules, p);
    OneCall(rules, p);
    StopsAtBlackhole(RoutedRules(rules, p).0, Routed(tables, p), pkt, b, i);
    assert RoutedRules(rules, p).0[i] in RoutedRules(rules, p).0;
    if Routes(tables, BLACKHOLE_TABLE).Keys <= {EVERYWHERE} {
      assert Routes(Routed(tables, p), BLACKHOLE_TABLE) == map[EVERYWHERE := Blackhole];
      ZeroLengthContainsAll(EVERYWHERE, pkt.dst);
    }
  }

  /** A call leaves rules of the blackhole table at 102, and only such. */
  lemma BlackholeLeft(rules: seq<Rule>, p: Prefix) returns (b: Rule)
    ensures b in RoutedRules(rules, p).0 && (b == BLACKHOLE_RULE || b == General(BLACKHOLE_RULE))
    ensures forall r :: r in RoutedRules(rules, p).0 && r.prio == BLACKHOLE_PREF ==> r.table == BLACKHOLE_TABLE
  {
    OneCall(rules, p);
    var after := RoutedRules(rules, p).0;
    TurnFacts(At(rules, BLACKHOLE_PREF), BLACKHOLE_RULE);
    SelectMembership(after, BLACKHOLE_PREF, true);
    b := At(after, BLACKHOLE_PREF)[0];
    assert b in At(after, BLACKHOLE_PREF);
    assert forall r :: r in after && r.prio == BLACKHOLE_PREF ==> r in At(after, BLACKHOLE_PREF);
  }

  /** Among the routes that contain an address one is the longest. */
  lemma {:induction false} LongestMatch(routes: RoutingTable, a: Addr, p: Prefix) returns (best: Prefix)
    requires p in routes && Contains(p, a)
    ensures best in routes && Contains(best, a) && forall q :: q in routes && Contains(q, a) ==> q.bits <= best.bits
    decreases 32 - p.bits
  {
    if q :| q in routes && Contains(q, a) && q.bits > p.bits {
      best := LongestMatch(routes, a, q);
    } else {
      best := p;
    }
  }

  /** The rule at preference 90 is consulted, in either form, for every packet to the peers' range. */
  lemma StopsAtPeerTable(rules: seq<Rule>, tables: Tables, p: Prefix, pkt: Packet, b: Rule, i: nat)
    requires Ordered(rules) && b in rules && (b == PeerRule(p) || b == General(PeerRule(p)))
    requires p in Routes(tables, PEER_TABLE) && Contains(p, pkt.dst) && Consulted(rules, tables, pkt, i)
    ensures rules[i].prio <= PEER_PREF
  {
    var k :| 0 <= k < |rules| && rules[k] == b;
    assert HasRoute(Routes(tables, b.table), pkt.dst);
    if k < i {
      assert Applies(rules[k], pkt);
    }
  }

  /** Traffic for a peer returns to it: after any call of ensureRouting, from any rules and any tables, a packet for an
      address of the range, arriving on any interface, is answered at preference 90 at the latest, so before any of
      gluetun's rules at 98 to 101; there only the peer table is asked, and if nobody else has routed anything
      elsewhere in it, it sends the packet to wg0. */
  lemma PeerTrafficReturns(rules: seq<Rule>, tables: Tables, p: Prefix, pkt: Packet, i: nat)
    requires Ordered(rules) && Contains(p, pkt.dst) && Consulted(RoutedRules(rules, p).0, Routed(tables, p), pkt, i)
    ensures RoutedRules(rules, p).0[i].prio <= 90
    ensures RoutedRules(rules, p).0[i].prio == 90 ==> RoutedRules(rules, p).0[i].table == 51821
    ensures (forall q :: q in Routes(tables, 51821) ==> Routes(tables, 51821)[q] == Via("wg0")) ==>
      RoutesTo(Routes(Routed(tables, p), 51821), pkt.dst, Via("wg0"))
  {
    var b := PeerRuleLeft(rules, p);
    OneCall(rules, p);
    var routes := Routes(Routed(tables, p), PEER_TABLE);
    assert p in routes;
    StopsAtPeerTable(RoutedRules(rules, p).0, Routed(tables, p), p, pkt, b, i);
    assert RoutedRules(rules, p).0[i] in RoutedRules(rules, p).0;
    var best := LongestMatch(routes, pkt.dst, p);
  }

  /** A call leaves rules of the peer table at 90, and only such. */
  lemma PeerRuleLeft(rules: seq<Rule>, p: Prefix) returns (b: Rule)
    ensures b in RoutedRules(rules, p).0 && (b == PeerRule(p) || b == General(PeerRule(p)))
    ensures forall r :: r in RoutedRules(rules, p).0 && r.prio == PEER_PREF ==> r.table == PEER_TABLE
  {
    OneCall(rules, p);
    var after := RoutedRules(rules, p).0;
    TurnFacts(At(rules, PEER_PREF), PeerRule(p));
    SelectMembership(after, PEER_PREF, true);
    b := At(after, PEER_PREF)[0];
    assert b in At(after, PEER_PREF);
    assert forall r :: r in after && r.prio == PEER_PREF ==> r in At(after, PEER_PREF);
  }

  // ---- between the requests of a call ----

  /** The blackhole rule is there, no general rule follows it, and its table's default is in place. */
  ghost predicate ClosedServer(rules: seq<Rule>, tables: Tables) {
    && Ordered(rules) && BLACKHOLE_RULE in rules && !Shadowed(rules, BLACKHOLE_RULE)
    && EVERYWHERE in Routes(tables, BLACKHOLE_TABLE)
  }

  /** A sweep stopped after n listed rules: other priorities are untouched, and at its own there is what the queue
      holds and what has not been looked at. */
  lemma StoppedAt(rules: seq<Rule>, want: Rule, n: nat)
    requires Specific(want) && n <= |rules|
    ensures var now := SweepAll(rules, rules[..n], want).rules;
      && At(now, want.prio) == Queue(rules[..n], want) + At(rules[n..], want.prio)
      && Others(now, want.prio) == Others(rules, want.prio)
      && (Ordered(rules) ==> Ordered(now))
  {
    var kept := SweepLeaves(rules, n, want);
    assert rules == rules[..n] + rules[n..];
    SelectConcat(kept, rules[n..], want.prio, true);
    SelectConcat(kept, rules[n..], want.prio, false);
    SelectConcat(rules[..n], rules[n..], want.prio, false);
    if Ordered(rules) {
      OrderedTogether(kept, rules, n);
    }
  }

  lemma OrderedTogether(kept: seq<Rule>, rules: seq<Rule>, n: nat)
    requires n <= |rules| && Ordered(rules) && (Ordered(rules[..n]) ==> Ordered(kept)) && forall r :: r in kept ==> r in rules[..n]
    ensures Ordered(kept + rules[n..])
  {
    var all := kept + rules[n..];
    forall i, j | 0 <= i < j < |all|
      ensures all[i].prio <= all[j].prio
    {
      if i < |kept| <= j {
        assert kept[i] in rules[..n];
        var k :| 0 <= k < n && rules[k] == kept[i];
      }
    }
  }

  /** The blackhole rule's own sweep, stopped anywhere, leaves it in place and unshadowed. */
  lemma BlackholeSurvivesItsSweep(rules: seq<Rule>, want: Rule, n: nat)
    requires Specific(want) && n <= |rules| && want in rules && !Shadowed(rules, want)
    ensures var now := SweepAll(rules, rules[..n], want).rules; want in now && !Shadowed(now, want)
  {
    var front, rest := rules[..n], rules[n..];
    var now := SweepAll(rules, front, want).rules;
    var queue, left := Queue(front, want), At(rest, want.prio);
    StoppedAt(rules, want, n);
    QueueFacts(front, want);
    CopiesPresent(front, want);
    ShadowInParts(front, rest, want);
    assert rules == front + rest;
    SelectMembership(rest, want.prio, true);
    ShadowedAt(now, want);
    ShadowedAt(rest, want);
    if queue != [] {
      assert queue[0] in queue;
      assert General(want) !in queue + left;
    } else {
      assert queue + left == left;
    }
  }

  lemma ShadowInParts(front: seq<Rule>, rest: seq<Rule>, want: Rule)
    ensures Shadowed(front, want) || Shadowed(rest, want) || (want in front && General(want) in rest) ==>
      Shadowed(front + rest, want)
  {
    var all := front + rest;
    if i, j :| 0 <= i < j < |front| && front[i] == want && front[j] == General(want) {
      assert all[i] == want && all[j] == General(want);
    } else if i, j :| 0 <= i < j < |rest| && rest[i] == want && rest[j] == General(want) {
      assert all[|front| + i] == want && all[|front| + j] == General(want);
    } else if i, j :| 0 <= i < |front| && 0 <= j < |rest| && front[i] == want && rest[j] == General(want) {
      assert all[i] == want && all[|front| + j] == General(want);
    }
  }

  /** One ensureRule, complete or cut short anywhere, for the blackhole rule or one of another priority. */
  lemma EnsureKeepsClosed(rules: seq<Rule>, tables: Tables, want: Rule, stop: nat)
    requires ClosedServer(rules, tables) && Specific(want) && (want == BLACKHOLE_RULE || want.prio != BLACKHOLE_PREF)
    ensures ClosedServer(EnsuredUntil(rules, want, stop).0, tables)
  {
    var n := if stop < |rules| then stop else |rules|;
    var now := SweepAll(rules, rules[..n], want).rules;
    assert rules[..|rules|] == rules;
    StoppedAt(rules, want, n);
    var kept := SweepLeaves(rules, n, want);
    ShadowedAt(rules, BLACKHOLE_RULE);
    if want == BLACKHOLE_RULE {
      BlackholeSurvivesItsSweep(rules, want, n);
    } else {
      AtUnlessTouched(now, rules, BLACKHOLE_PREF, want.prio);
      ShadowedAt(now, BLACKHOLE_RULE);
      AddTouchesOwn(now, want, BLACKHOLE_PREF);
      ShadowedAt(RuleAdd(now, want), BLACKHOLE_RULE);
    }
  }

  lemma AddTouchesOwn(rules: seq<Rule>, r: Rule, prio: nat)
    requires Ordered(rules) && r.prio != prio
    ensures At(RuleAdd(rules, r), prio) == At(rules, prio) && Ordered(RuleAdd(rules, r))
  {
    var a, b := AddSplits(rules, r);
    AddOrdered(rules, r);
    SelectConcat(a, b, prio, true);
    SelectAround(a, r, b, prio, true);
  }

  datatype Call = Call(p: Prefix, fault: Fault)

  /** Rules and tables after a sequence of calls, each of which may fail at any request. */
  function AfterCalls(rules: seq<Rule>, tables: Tables, calls: seq<Call>): (seq<Rule>, Tables) {
    if calls == [] then (rules, tables) else
    var before, c := AfterCalls(rules, tables, calls[..|calls| - 1]), calls[|calls| - 1];
    (RulesUntil(before.0, c.p, c.fault).0, RoutedUntil(before.1, c.p, c.fault))
  }

  lemma CallKeepsClosed(rules: seq<Rule>, tables: Tables, c: Call)
    requires ClosedServer(rules, tables)
    ensures ClosedServer(RulesUntil(rules, c.p, c.fault).0, RoutedUntil(tables, c.p, c.fault))
  {
    var first := EnsuredUntil(rules, PeerRule(c.p), if c.fault.FirstRule? then c.fault.at else |rules| + 1).0;
    EnsureKeepsClosed(rules, tables, PeerRule(c.p), if c.fault.FirstRule? then c.fault.at else |rules| + 1);
    EnsureKeepsClosed(first, tables, BLACKHOLE_RULE, if c.fault.SecondRule? then c.fault.at else |first| + 1);
  }

  /** Fail closed over runs: once the blackhole rule and its route are in place, no sequence of calls, for any ranges
      and cut short at any request, ever shows a peer's packet to a rule behind preference 102. */
  lemma {:induction false} ServerStaysClosed(rules: seq<Rule>, tables: Tables, calls: seq<Call>)
    requires ClosedServer(rules, tables)
    ensures var now := AfterCalls(rules, tables, calls);
      && ClosedServer(now.0, now.1)
      && forall pkt: Packet, i: nat :: pkt.iif == "wg0" && Consulted(now.0, now.1, pkt, i) ==> now.0[i].prio <= 102
  {
    if calls != [] {
      var front := calls[..|calls| - 1];
      ServerStaysClosed(rules, tables, front);
      CallKeepsClosed(AfterCalls(rules, tables, front).0, AfterCalls(rules, tables, front).1, calls[|calls| - 1]);
    }
    var now := AfterCalls(rules, tables, calls);
    forall pkt: Packet, i: nat | pkt.iif == WG && Consulted(now.0, now.1, pkt, i)
      ensures now.0[i].prio <= BLACKHOLE_PREF
    {
      StopsAtBlackhole(now.0, now.1, pkt, BLACKHOLE_RULE, i);
    }
  }

  /** A complete call that was not shadowed closes the server, whatever was there. */
  lemma CallCloses(rules: seq<Rule>, tables: Tables, p: Prefix)
    requires Ordered(rules) && !Shadowed(rules, BLACKHOLE_RULE)
    ensures ClosedServer(RoutedRules(rules, p).0, Routed(tables, p))
  {
    OneCall(rules, p);
    var after := RoutedRules(rules, p).0;
    var at := At(after, BLACKHOLE_PREF);
    ShadowedAt(rules, BLACKHOLE_RULE);
    ShadowedAt(after, BLACKHOLE_RULE);
    TurnFacts(At(rules, BLACKHOLE_PREF), BLACKHOLE_RULE);
    assert at[0] in at && forall i :: 0 <= i < |at| ==> at[i] in at;
  }

  /** A route left in the peer table for an earlier range is unreachable for destinations outside the current one:
      the contents of that table make no difference to them. */
  lemma EarlierRangesUnreachable(rules: seq<Rule>, before: seq<Rule>, p: Prefix, tables: Tables, tables': Tables, pkt: Packet, i: nat)
    requires BothAlone(rules, p, before) && !Contains(p, pkt.dst)
    requires forall r :: r in rules && r.table == PEER_TABLE ==> r.prio == PEER_PREF
    requires forall t :: t != PEER_TABLE ==> Routes(tables, t) == Routes(tables', t)
    ensures Consulted(rules, tables, pkt, i) <==> Consulted(rules, tables', pkt, i)
    ensures Consulted(rules, tables, pkt, i) ==> rules[i].table != PEER_TABLE
  {
    SelectMembership(rules, PEER_PREF, true);
    assert forall r :: r in rules && r.prio == PEER_PREF ==> r in At(rules, PEER_PREF);
    forall j | 0 <= j < |rules| && Applies(rules[j], pkt)
      ensures rules[j].table != PEER_TABLE
    {
      assert rules[j] in rules;
    }
  }

  /** Replies for a peer return to wg0: every route in the peer table leads there, whichever range it was for. */
  lemma {:induction false} PeerTableLeadsToWg(tables: Tables, p: Prefix, pkt: Packet)
    requires (forall q :: q in Routes(tables, PEER_TABLE) ==> Routes(tables, PEER_TABLE)[q] == Via(WG)) && Contains(p, pkt.dst)
    ensures HasRoute(Routes(Routed(tables, p), PEER_TABLE), pkt.dst)
    ensures forall target :: RoutesTo(Routes(Routed(tables, p), PEER_TABLE), pkt.dst, target) ==> target == Via(WG)
  {
    assert p in Routes(Routed(tables, p), PEER_TABLE);
  }
}
