/**
 The registries of live objects: a counter that numbers objects and a map from number to object
 (libs/base/memory.cpp:36-94 for memory objects, libs/service/threadmonitor.cpp:50-132 for threads).
 */
module Registry {
  import opened MemAlign

  // ---------------------------------------------------------------- Histories

  /** An object registers itself, or the object with a number leaves. */
  datatype Event<T> = Born(obj: T) | Died(key: nat)

  datatype Table<T> = Table(counter: nat, entries: map<nat, T>)

  /** What an event does to the counter, which wraps at width, and to the map. */
  function Step<T>(t: Table<T>, e: Event<T>, width: nat): Table<T>
    requires width > 0
  {
    match e
    case Born(obj) =>
      var key := (t.counter + 1) % width;
      Table(key, t.entries[key := obj])
    case Died(key) => t.(entries := t.entries - {key})
  }

  function RunAll<T>(events: seq<Event<T>>, width: nat): Table<T>
    requires width > 0
  {
    if events == [] then Table(0, map[])
    else Step(RunAll(events[..|events| - 1], width), events[|events| - 1], width)
  }

  /** All the objects ever registered, in order. */
  function Births<T>(events: seq<Event<T>>): seq<T> {
    if events == [] then []
    else
      var past, e := Births(events[..|events| - 1]), events[|events| - 1];
      if e.Born? then past + [e.obj] else past
  }

  /** The number an object gets for the ordinal of its birth. */
  function KeyOf(ordinal: nat, width: nat): nat
    requires width > 0
  {
    ordinal % width
  }

  function Without(list: seq<nat>, key: nat, width: nat): seq<nat>
    requires width > 0
  {
    if list == [] then []
    else
      var front, last := Without(list[..|list| - 1], key, width), list[|list| - 1];
      if KeyOf(last, width) == key then front else front + [last]
  }

  /** The objects alive after the events, oldest first, each by the ordinal of its birth. */
  function Live<T>(events: seq<Event<T>>, width: nat): seq<nat>
    requires width > 0
  {
    if events == [] then []
    else
      var past := events[..|events| - 1];
      match events[|events| - 1]
      case Born(_) => Live(past, width) + [|Births(past)| + 1]
      case Died(key) => Without(Live(past, width), key, width)
  }

  ghost predicate Increasing(list: seq<nat>) { forall i, j :: 0 <= i < j < |list| ==> list[i] < list[j] }

  lemma {:induction false} WithoutFacts(list: seq<nat>, key: nat, width: nat)
    requires width > 0 && Increasing(list)
    ensures Increasing(Without(list, key, width))
    ensures forall n :: n in Without(list, key, width) <==> n in list && KeyOf(n, width) != key
  {
    hide KeyOf;
    if list != [] {
      var front, last := list[..|list| - 1], list[|list| - 1];
      WithoutFacts(front, key, width);
      var w := Without(front, key, width);
      assert list == front + [last];
      assert forall i :: 0 <= i < |w| ==> w[i] in w;
    }
  }

  /** The map holds exactly the listed objects, each under its own number. */
  ghost predicate Holds<T>(m: map<nat, T>, live: seq<nat>, births: seq<T>, width: nat)
    requires width > 0
  {
    && (forall n :: n in live ==> 1 <= n <= |births| && KeyOf(n, width) in m && m[KeyOf(n, width)] == births[n - 1])
    && (forall a, b :: a in live && b in live && KeyOf(a, width) == KeyOf(b, width) ==> a == b)
    && (forall k :: k in m ==> exists n :: n in live && KeyOf(n, width) == k)
  }

  ghost predicate Agrees<T>(events: seq<Event<T>>, width: nat)
    requires width > 0
  {
    Holds(RunAll(events, width).entries, Live(events, width), Births(events), width)
  }

  /** No birth of the history met a taken number. */
  ghost predicate NoClash<T>(events: seq<Event<T>>, width: nat)
    requires width > 0
  {
    events == [] ||
    (var past := events[..|events| - 1];
     && NoClash(past, width)
     && (events[|events| - 1].Born? ==> KeyOf(|Births(past)| + 1, width) !in RunAll(past, width).entries))
  }

  lemma EmptyHistory<T>(width: nat)
    requires width > 0
    ensures RunAll<T>([], width) == Table(0, map[]) && Births<T>([]) == [] && Live<T>([], width) == []
    ensures NoClash<T>([], width) && Increasing([]) && Holds<T>(map[], [], [], width) && KeyOf(0, width) == 0
  {
    ModUnique(0, width, 0, 0);
  }

  lemma EventStep<T>(past: seq<Event<T>>, e: Event<T>, width: nat)
    requires width > 0
    ensures RunAll(past + [e], width) == Step(RunAll(past, width), e, width)
    ensures Births(past + [e]) == if e.Born? then Births(past) + [e.obj] else Births(past)
    ensures Live(past + [e], width)
            == if e.Born? then Live(past, width) + [|Births(past)| + 1] else Without(Live(past, width), e.key, width)
    ensures NoClash(past + [e], width)
            <==> NoClash(past, width) && (e.Born? ==> KeyOf(|Births(past)| + 1, width) !in RunAll(past, width).entries)
  {
    hide Without, Step, KeyOf;
    assert (past + [e])[..|past|] == past;
  }

  /** Over any history the counter is the number of births, wrapped. */
  lemma {:induction false} CounterIsBirths<T>(events: seq<Event<T>>, width: nat)
    requires width > 0
    ensures RunAll(events, width).counter == KeyOf(|Births(events)|, width)
  {
    hide Births, Live, RunAll;
    if events == [] {
      EmptyHistory<T>(width);
    } else {
      var past, e := events[..|events| - 1], events[|events| - 1];
      CounterIsBirths(past, width);
      assert events == past + [e];
      EventStep(past, e, width);
      SuccMod(|Births(past)|, width);
    }
  }

  /** A birth under a free number keeps the agreement between the table and the live objects, and so does a death. */
  lemma BornKeeps<T>(m: map<nat, T>, live: seq<nat>, births: seq<T>, width: nat, obj: T)
    requires width > 0 && Increasing(live) && Holds(m, live, births, width)
    requires KeyOf(|births| + 1, width) !in m
    ensures var n := |births| + 1;
            Increasing(live + [n]) && Holds(m[KeyOf(n, width) := obj], live + [n], births + [obj], width)
  {
    hide KeyOf;
    var n := |births| + 1;
    forall i | 0 <= i < |live| ensures live[i] < n { assert live[i] in live; }
    var all, key := live + [n], KeyOf(n, width);
    var after := m[key := obj];
    assert forall a :: a in all <==> a in live || a == n;
    forall k | k in after ensures exists a :: a in all && KeyOf(a, width) == k {
      if k == key {
        assert n in all;
      } else {
        var a :| a in live && KeyOf(a, width) == k;
        assert a in all;
      }
    }
  }

  lemma DiedKeeps<T>(m: map<nat, T>, live: seq<nat>, births: seq<T>, width: nat, key: nat)
    requires width > 0 && Increasing(live) && Holds(m, live, births, width)
    ensures Increasing(Without(live, key, width)) && Holds(m - {key}, Without(live, key, width), births, width)
  {
    hide Increasing, Without, KeyOf;
    WithoutFacts(live, key, width);
    var rest := Without(live, key, width);
    forall k | k in m - {key} ensures exists n :: n in rest && KeyOf(n, width) == k {
      var n :| n in live && KeyOf(n, width) == k;
      assert n in rest;
    }
  }

  lemma {:induction false} NoClashAgrees<T>(events: seq<Event<T>>, width: nat)
    requires width > 0 && NoClash(events, width)
    ensures Agrees(events, width) && Increasing(Live(events, width))
  {
    hide Holds, Increasing, Births, Live, RunAll, Without, NoClash, KeyOf;
    if events == [] {
      EmptyHistory<T>(width);
    } else {
      var past, e := events[..|events| - 1], events[|events| - 1];
      assert events == past + [e];
      EventStep(past, e, width);
      NoClashAgrees(past, width);
      match e {
        case Born(obj) =>
          NextKey(past, width);
          BornKeeps(RunAll(past, width).entries, Live(past, width), Births(past), width, obj);
        case Died(key) => DiedKeeps(RunAll(past, width).entries, Live(past, width), Births(past), width, key);
      }
    }
  }

  /** The number the next object gets. */
  lemma NextKey<T>(past: seq<Event<T>>, width: nat)
    requires width > 0
    ensures (RunAll(past, width).counter + 1) % width == KeyOf(|Births(past)| + 1, width)
  {
    hide RunAll, Births;
    CounterIsBirths(past, width);
    SuccMod(|Births(past)|, width);
  }

  /**
   Over any history, however often the counter has wrapped: the map held exactly the live objects, each
   under its own number, all the time if and only if no birth ever met a taken number.
   */
  lemma {:induction false} AgreesThroughoutIff<T>(events: seq<Event<T>>, width: nat)
    requires width > 0
    ensures (forall n :: 0 <= n <= |events| ==> Agrees(events[..n], width)) <==> NoClash(events, width)
  {
    hide Agrees, Births, Live, RunAll, Without, NoClash, KeyOf;
    assert events[..|events|] == events;
    if events == [] {
      EmptyHistory<T>(width);
      NoClashAgrees(events, width);
    } else {
      var past, e := events[..|events| - 1], events[|events| - 1];
      assert events == past + [e];
      EventStep(past, e, width);
      AgreesThroughoutIff(past, width);
      assert forall n :: 0 <= n <= |past| ==> past[..n] == events[..n];
      if NoClash(events, width) {
        NoClashAgrees(events, width);
      } else if NoClash(past, width) {
        ClashBreaks(past, e, width);
      }
    }
  }

  /** After a birth that met a taken number two live objects share it. */
  lemma ClashBreaks<T>(past: seq<Event<T>>, e: Event<T>, width: nat)
    requires width > 0 && NoClash(past, width)
    requires e.Born? && KeyOf(|Births(past)| + 1, width) in RunAll(past, width).entries
    ensures !Agrees(past + [e], width)
  {
    hide Births, Live, RunAll, NoClash, KeyOf;
    NoClashAgrees(past, width);
    EventStep(past, e, width);
    var n, key := |Births(past)| + 1, KeyOf(|Births(past)| + 1, width);
    var older :| older in Live(past, width) && KeyOf(older, width) == key;
    assert older in Live(past + [e], width) && n in Live(past + [e], width);
  }

  /** A birth keeps every entry of the map exactly when the next number is free, or leads to the very same object. */
  lemma BirthKeepsIff<T>(t: Table<T>, obj: T, width: nat)
    requires width > 0
    ensures var key := (t.counter + 1) % width;
            var after := Step(t, Born(obj), width).entries;
            (forall k :: k in t.entries ==> k in after && after[k] == t.entries[k])
            <==> key !in t.entries || t.entries[key] == obj
  {
    var key := (t.counter + 1) % width;
    var after := Step(t, Born(obj), width).entries;
    assert after[key] == obj;
  }

  /** Until the counter wraps no number is ever met again. */
  lemma {:induction false} FewBirthsNoClash<T>(events: seq<Event<T>>, width: nat)
    requires width > 0 && |Births(events)| <= width
    ensures NoClash(events, width)
  {
    hide Births, Live, RunAll, NoClash, KeyOf;
    if events == [] {
      EmptyHistory<T>(width);
    } else {
      var past, e := events[..|events| - 1], events[|events| - 1];
      assert events == past + [e];
      EventStep(past, e, width);
      FewBirthsNoClash(past, width);
      NoClashAgrees(past, width);
      if e.Born? {
        var n := |Births(past)| + 1;
        forall o | o in Live(past, width) ensures KeyOf(o, width) != KeyOf(n, width) {
          SmallKeys(o, n, width);
        }
      }
    }
  }

  lemma SmallKeys(o: nat, n: nat, width: nat)
    requires 1 <= o < n <= width
    ensures KeyOf(o, width) == o && KeyOf(o, width) != KeyOf(n, width)
  {
    ModUnique(o, width, 0, o);
    if n < width { ModUnique(n, width, 0, n); } else { ModUnique(n, width, 1, 0); }
  }

  /**
   As long as fewer objects were born than the counter has values, the map holds exactly the live objects,
   each under the ordinal of its birth, which no other object ever had.
   */
  lemma TableHoldsLive<T>(events: seq<Event<T>>, width: nat)
    requires width > 0
    ensures RunAll(events, width).counter == |Births(events)| % width
    ensures |Births(events)| < width ==>
              var m, live := RunAll(events, width).entries, Live(events, width);
              && Increasing(live)
              && (forall k :: k in m <==> k in live)
              && (forall k :: k in m ==> 1 <= k <= |Births(events)| && m[k] == Births(events)[k - 1])
  {
    hide Births, Live, RunAll, NoClash, Increasing;
    CounterIsBirths(events, width);
    if |Births(events)| < width {
      FewBirthsNoClash(events, width);
      NoClashAgrees(events, width);
      forall n | n in Live(events, width) ensures KeyOf(n, width) == n { SmallKeys(n, n + 1, width); }
    }
  }

  lemma SuccMod(n: nat, width: nat)
    requires width > 0
    ensures (n % width + 1) % width == (n + 1) % width
    ensures n + 1 < width ==> (n + 1) % width == n + 1
  {
    var q, r := n / width, n % width;
    assert n + 1 == q * width + (r + 1);
    if r + 1 < width {
      ModUnique(n + 1, width, q, r + 1);
      ModUnique(r + 1, width, 0, r + 1);
    } else {
      assert n + 1 == (q + 1) * width;
      ModUnique(n + 1, width, q + 1, 0);
      ModUnique(r + 1, width, 1, 0);
    }
    if n + 1 < width { ModUnique(n + 1, width, 0, n + 1); }
  }

  // ---------------------------------------------------------------- Iteration

  /** The keys from lo to hi - 1, ascending. */
  function Ascending(keys: set<nat>, lo: nat, hi: nat): seq<nat>
    decreases hi - lo
  {
    if lo >= hi then [] else (if lo in keys then [lo] else []) + Ascending(keys, lo + 1, hi)
  }

  lemma {:induction false} AscendingIsList(keys: set<nat>, list: seq<nat>, lo: nat, hi: nat)
    requires Increasing(list) && forall k :: k in list <==> k in keys && lo <= k < hi
    ensures Ascending(keys, lo, hi) == list
    decreases hi - lo
  {
    assert list != [] ==> list[0] in list;
    if lo < hi {
      if lo in keys {
        HeadIsLeast(list, lo);
        AscendingIsList(keys, list[1..], lo + 1, hi);
      } else {
        AscendingIsList(keys, list, lo + 1, hi);
      }
    }
  }

  lemma HeadIsLeast(list: seq<nat>, lo: nat)
    requires Increasing(list) && lo in list && forall k :: k in list ==> lo <= k
    ensures list == [lo] + list[1..] && Increasing(list[1..])
    ensures forall k :: k in list[1..] <==> k in list && lo < k
  {
    var i :| 0 <= i < |list| && list[i] == lo;
    assert list[0] in list;
    var rest := list[1..];
    assert list == [lo] + rest;
    forall k | k in rest ensures lo < k {
      var j :| 0 <= j < |rest| && rest[j] == k;
      assert list[j + 1] == k;
    }
  }

  lemma {:induction false} AscendingLeast(keys: set<nat>, k: nat, lo: nat, hi: nat)
    requires k in keys && lo <= k < hi && forall j :: j in keys ==> k <= j
    ensures Ascending(keys, lo, hi) == [k] + Ascending(keys - {k}, lo, hi)
    decreases k - lo
  {
    if lo < k {
      AscendingLeast(keys, k, lo + 1, hi);
    } else {
      AscendingAgree(keys, keys - {k}, lo + 1, hi);
    }
  }

  lemma {:induction false} AscendingAgree(a: set<nat>, b: set<nat>, lo: nat, hi: nat)
    requires forall k :: lo <= k < hi ==> (k in a <==> k in b)
    ensures Ascending(a, lo, hi) == Ascending(b, lo, hi)
    decreases hi - lo
  {
    if lo < hi { AscendingAgree(a, b, lo + 1, hi); }
  }

  lemma {:induction false} NoneAscending(lo: nat, hi: nat)
    ensures Ascending({}, lo, hi) == []
    decreases hi - lo
  {
    if lo < hi { NoneAscending(lo + 1, hi); }
  }

  lemma {:induction false} LeastExists(keys: set<nat>) returns (least: nat)
    requires keys != {}
    ensures least in keys && forall j :: j in keys ==> least <= j
  {
    var k :| k in keys;
    var rest := keys - {k};
    least := k;
    if rest != {} {
      var l := LeastExists(rest);
      least := if l < k then l else k;
    }
    forall j | j in keys ensures least <= j {
      if j != k { assert j in rest; }
    }
  }

  /** Iterating over the map meets the live objects in the order of their creation. */
  lemma IterationIsCreationOrder<T>(events: seq<Event<T>>, width: nat)
    requires |Births(events)| < width
    ensures Ascending(RunAll(events, width).entries.Keys, 0, width) == Live(events, width)
  {
    hide RunAll, Live, Births;
    TableHoldsLive(events, width);
    AscendingIsList(RunAll(events, width).entries.Keys, Live(events, width), 0, width);
  }

  /** Once the counter has wrapped, a newcomer takes the place of the first object while that one is still alive. */
  lemma WrapLosesObject<T>(past: seq<Event<T>>, obj: T, width: nat)
    requires width > 1 && |Births(past)| == width && 1 in Live(past, width)
    ensures var events := past + [Born(obj)];
            var t := RunAll(events, width);
            && t.counter == 1 && t.entries[1 := obj] == t.entries
            && 1 in Live(events, width) && width + 1 in Live(events, width) && width + 1 !in t.entries
            && !Agrees(events, width)
  {
    hide RunAll, Live, Births, Holds;
    EventStep(past, Born(obj), width);
    TableHoldsLive(past, width);
    ModUnique(width, width, 1, 0);
    ModUnique(1, width, 0, 1);
    ModUnique(width + 1, width, 1, 1);
    KeysBelow(past, width);
    FewBirthsNoClash(past, width);
    FirstStillThere(past, width);
    ClashBreaks(past, Born(obj), width);
  }

  lemma FirstStillThere<T>(past: seq<Event<T>>, width: nat)
    requires width > 1 && |Births(past)| == width && 1 in Live(past, width)
    ensures 1 in RunAll(past, width).entries
  {
    hide RunAll, Live, Births, KeyOf;
    FewBirthsNoClash(past, width);
    NoClashAgrees(past, width);
    SmallKeys(1, 2, width);
  }

  lemma {:induction false} KeysBelow<T>(events: seq<Event<T>>, width: nat)
    requires width > 0
    ensures forall k :: k in RunAll(events, width).entries ==> k < width
  {
    if events != [] { KeysBelow(events[..|events| - 1], width); }
  }

  // ---------------------------------------------------------------- The registries

  /** Memory's static counter and map, and ThreadMonitor's; width is how many values the counter has. */
  class LiveTable<T> {
    const width: nat
    var counter: nat
    var entries: map<nat, T>
    ghost var events: seq<Event<T>>

    ghost predicate Valid()
      reads this
    {
      width > 0 && Table(counter, entries) == RunAll(events, width)
    }

    constructor (width: nat)
      requires width > 0
      ensures Valid() && events == [] && this.width == width
    {
      this.width, counter, entries, events := width, 0, map[], [];
    }

    method Register(obj: T) returns (key: nat)
      requires Valid()
      modifies this
      ensures Valid() && events == old(events) + [Born(obj)]
      ensures key == |Births(events)| % width && key in entries && entries[key] == obj
    {
      counter := (counter + 1) % width;
      key := counter;
      entries := entries[key := obj];
      events := events + [Born(obj)];
      assert events[..|events| - 1] == old(events);
      TableHoldsLive(events, width);
    }

    method Unregister(key: nat)
      requires Valid()
      modifies this
      ensures Valid() && events == old(events) + [Died(key)] && key !in entries
    {
      entries := entries - {key};
      events := events + [Died(key)];
      assert events[..|events| - 1] == old(events);
    }

    /** The loop over the map that Dump and the monitor's four operations make. */
    method Visit() returns (visited: seq<T>)
      requires Valid()
      ensures |Births(events)| < width ==>
                var live := Live(events, width);
                && |visited| == |live|
                && forall i :: 0 <= i < |live| ==>
                     1 <= live[i] <= |Births(events)| && visited[i] == Births(events)[live[i] - 1]
    {
      hide RunAll, Live, Births, Ascending, Holds, Increasing;
      visited := [];
      ghost var order := [];
      var rest := entries.Keys;
      ghost var all := Ascending(rest, 0, width);
      ghost var ok := |Births(events)| < width;
      if ok { VisitPlan(events, width); }
      while rest != {}
        invariant rest <= entries.Keys && |visited| == |order|
        invariant forall i :: 0 <= i < |order| ==> order[i] in entries && visited[i] == entries[order[i]]
        invariant ok ==> order + Ascending(rest, 0, width) == all
        decreases |rest|
      {
        ghost var least := LeastExists(rest);
        var k :| k in rest && forall j :: j in rest ==> k <= j;
        if ok { AscendingLeast(rest, k, 0, width); }
        visited := visited + [entries[k]];
        order := order + [k];
        rest := rest - {k};
      }
      NoneAscending(0, width);
    }
  }

  /** What a loop over the map finds, key by key. */
  lemma VisitPlan<T>(events: seq<Event<T>>, width: nat)
    requires |Births(events)| < width
    ensures var m := RunAll(events, width).entries;
            && (forall k :: k in m ==> 1 <= k <= |Births(events)| < width && m[k] == Births(events)[k - 1])
            && Ascending(m.Keys, 0, width) == Live(events, width)
  {
    hide RunAll, Live, Births, Ascending;
    TableHoldsLive(events, width);
    IterationIsCreationOrder(events, width);
  }
}
