/** Aggregation of one database's keys into per-group reports, and the copy of
    the group map into a slice. */
module Aggregation {
  import opened KeyGrouping
  import opened KeySize

  /** One aggregated group. The record has two further numeric fields that
      the analysis always leaves at zero. */
  datatype Report = Report(key: string, count: nat, size: nat, reserved1: nat, reserved2: nat)

  /** One key as the aggregation sees it: its group key and its size. */
  datatype Observation = Observation(groupKey: string, size: nat)

  function CountOf(r: Report): nat { r.count }
  function SizeOf(r: Report): nat { r.size }

  /** Every key that the introspection call answers has a parseable reply. */
  predicate RepliesWellFormed(keys: seq<string>, debugObject: string -> DebugReply)
  {
    forall i :: 0 <= i < |keys| ==> WellFormedReply(debugObject(keys[i]))
  }

  /** What the key loop sees for each key, in order. The group key of every
      key is computed from "" because, with no delimiters, the loop variable
      keeps the "" it was declared with, and otherwise its old value is
      overwritten. */
  function Observations(delimiters: seq<string>, keys: seq<string>, debugObject: string -> DebugReply): (obs: seq<Observation>)
    requires ValidDelimiters(delimiters) && RepliesWellFormed(keys, debugObject)
    ensures |obs| == |keys|
  {
    if keys == [] then []
    else
      var key := keys[|keys| - 1];
      Observations(delimiters, keys[..|keys| - 1], debugObject)
        + [Observation(Grouped(key, delimiters, ""), KeySizeOf(debugObject(key)))]
  }

  /** One observation folded into the group map: the group is found or created
      with count 0 and size 0, gets the key's size added and its count raised
      by one, and is written back; no other group changes. */
  function Observe(groups: map<string, Report>, o: Observation): (groups': map<string, Report>)
    ensures groups'.Keys == groups.Keys + {o.groupKey}
    ensures forall g :: g in groups && g != o.groupKey ==> groups'[g] == groups[g]
    ensures o.groupKey in groups ==>
      groups'[o.groupKey] == groups[o.groupKey].(count := groups[o.groupKey].count + 1,
                                                 size := groups[o.groupKey].size + o.size)
    ensures o.groupKey !in groups ==> groups'[o.groupKey] == Report(o.groupKey, 1, o.size, 0, 0)
  {
    var r := if o.groupKey in groups then groups[o.groupKey] else Report(o.groupKey, 0, 0, 0, 0);
    groups[o.groupKey := r.(size := r.size + o.size, count := r.count + 1)]
  }

  /** Observe is the write-back of the updated group record. */
  lemma ObserveWritesGroup(groups: map<string, Report>, o: Observation, r: Report)
    requires var found := if o.groupKey in groups then groups[o.groupKey] else Report(o.groupKey, 0, 0, 0, 0);
      r == found.(size := found.size + o.size).(count := found.count + 1)
    ensures Observe(groups, o) == groups[o.groupKey := r]
  {
  }

  /** The group map after all observations, in order. */
  function Aggregate(obs: seq<Observation>): map<string, Report>
  {
    if obs == [] then map[] else Observe(Aggregate(obs[..|obs| - 1]), obs[|obs| - 1])
  }

  /** One turn of the key loop: writing back the updated record of the next
      observation's group extends the aggregation by that observation. */
  lemma AggregateNext(obs: seq<Observation>, i: nat, groups: map<string, Report>, r: Report)
    requires i < |obs| && groups == Aggregate(obs[..i])
    requires var o := obs[i];
      var found := if o.groupKey in groups then groups[o.groupKey] else Report(o.groupKey, 0, 0, 0, 0);
      r == found.(size := found.size + o.size).(count := found.count + 1)
    ensures groups[obs[i].groupKey := r] == Aggregate(obs[..i + 1])
  {
    assert obs[..i + 1][..i] == obs[..i];
    ObserveWritesGroup(groups, obs[i], r);
  }

  /** Reference definitions: how many observations fall in a group, and how
      many bytes they bring. */
  function Occurrences(obs: seq<Observation>, g: string): nat
  {
    if obs == [] then 0
    else Occurrences(obs[..|obs| - 1], g) + if obs[|obs| - 1].groupKey == g then 1 else 0
  }

  function GroupBytes(obs: seq<Observation>, g: string): nat
  {
    if obs == [] then 0
    else GroupBytes(obs[..|obs| - 1], g) + if obs[|obs| - 1].groupKey == g then obs[|obs| - 1].size else 0
  }

  function TotalBytes(obs: seq<Observation>): nat
  {
    if obs == [] then 0 else TotalBytes(obs[..|obs| - 1]) + obs[|obs| - 1].size
  }

  /** Each map entry is stored under its own group key. */
  predicate KeyedByGroup(groups: map<string, Report>)
  {
    forall g :: g in groups ==> groups[g].key == g
  }

  /** A group exists exactly when some key fell into it; its report then holds
      the group key, the number of such keys (so at least one), the sum of
      their sizes, and zero in the reserved fields. */
  lemma {:induction false} AggregateGroup(obs: seq<Observation>, g: string)
    ensures g in Aggregate(obs) <==> Occurrences(obs, g) > 0
    ensures g !in Aggregate(obs) ==> GroupBytes(obs, g) == 0
    ensures g in Aggregate(obs) ==> Aggregate(obs)[g] == Report(g, Occurrences(obs, g), GroupBytes(obs, g), 0, 0)
  {
    if obs != [] {
      AggregateGroup(obs[..|obs| - 1], g);
    }
  }

  lemma AggregateKeyed(obs: seq<Observation>)
    ensures KeyedByGroup(Aggregate(obs))
  {
    forall g | g in Aggregate(obs) ensures Aggregate(obs)[g].key == g {
      AggregateGroup(obs, g);
    }
  }

  /** The observation of the i-th key. */
  lemma {:induction false} ObservationAt(delimiters: seq<string>, keys: seq<string>, debugObject: string -> DebugReply, i: nat)
    requires ValidDelimiters(delimiters) && RepliesWellFormed(keys, debugObject) && i < |keys|
    ensures Observations(delimiters, keys, debugObject)[i]
      == Observation(Grouped(keys[i], delimiters, ""), KeySizeOf(debugObject(keys[i])))
  {
    if i < |keys| - 1 {
      var prefix := keys[..|keys| - 1];
      assert RepliesWellFormed(prefix, debugObject);
      ObservationAt(delimiters, prefix, debugObject, i);
    }
  }

  /** The aggregation of one database's keys: the key loop of the analysis,
      with the per-key grouping, size extraction and map update. */
  method AggregateKeys(delimiters: seq<string>, keys: seq<string>, debugObject: string -> DebugReply)
    returns (groups: map<string, Report>)
    requires ValidDelimiters(delimiters) && RepliesWellFormed(keys, debugObject)
    ensures groups == Aggregate(Observations(delimiters, keys, debugObject))
  {
    ghost var obs := Observations(delimiters, keys, debugObject);
    groups := map[];
    var groupKey := "";
    for i := 0 to |keys|
      invariant groups == Aggregate(obs[..i])
      invariant |delimiters| == 0 ==> groupKey == ""
    {
      var key := keys[i];
      groupKey := GroupKeyOf(key, delimiters, groupKey);
      if |delimiters| > 0 {
        GroupedIgnoresPrior(key, delimiters, groupKey);
      }
      var size := KeySizeOf(debugObject(key));
      ObservationAt(delimiters, keys, debugObject, i);
      ghost var before := groups;
      var r: Report;
      if groupKey in groups {
        r := groups[groupKey];
      } else {
        r := Report(groupKey, 0, 0, 0, 0);
      }
      r := r.(size := r.size + size);
      r := r.(count := r.count + 1);
      groups := groups[groupKey := r];
      AggregateNext(obs, i, before, r);
    }
    assert obs[..|keys|] == obs;
  }

  /** Sum of `f` over the groups named in `ks`. */
  ghost function SumOver(groups: map<string, Report>, ks: set<string>, f: Report -> nat): nat
    requires ks <= groups.Keys
    decreases ks
  {
    if ks == {} then 0 else var k :| k in ks; f(groups[k]) + SumOver(groups, ks - {k}, f)
  }

  /** The sum does not depend on which group is taken out first. */
  lemma {:induction false} SumOverRemove(groups: map<string, Report>, ks: set<string>, k: string, f: Report -> nat)
    requires ks <= groups.Keys && k in ks
    ensures SumOver(groups, ks, f) == f(groups[k]) + SumOver(groups, ks - {k}, f)
    decreases ks
  {
    var k' :| k' in ks && SumOver(groups, ks, f) == f(groups[k']) + SumOver(groups, ks - {k'}, f);
    if k' != k {
      SumOverRemove(groups, ks - {k'}, k, f);
      SumOverRemove(groups, ks - {k}, k', f);
      assert ks - {k'} - {k} == ks - {k} - {k'};
    }
  }

  /** Two maps that agree on `ks` have the same sum over `ks`. */
  lemma {:induction false} SumOverAgree(m1: map<string, Report>, m2: map<string, Report>, ks: set<string>, f: Report -> nat)
    requires ks <= m1.Keys && ks <= m2.Keys
    requires forall k :: k in ks ==> m1[k] == m2[k]
    ensures SumOver(m1, ks, f) == SumOver(m2, ks, f)
    decreases ks
  {
    if ks != {} {
      var k :| k in ks;
      SumOverRemove(m1, ks, k, f);
      SumOverRemove(m2, ks, k, f);
      SumOverAgree(m1, m2, ks - {k}, f);
    }
  }

  /** One observation changes the sum over all groups by what it changes in its own group. */
  lemma ObserveSum(groups: map<string, Report>, o: Observation, f: Report -> nat)
    ensures var groups' := Observe(groups, o);
      SumOver(groups', groups'.Keys, f) + (if o.groupKey in groups then f(groups[o.groupKey]) else 0)
        == SumOver(groups, groups.Keys, f) + f(groups'[o.groupKey])
  {
    var groups' := Observe(groups, o);
    var g := o.groupKey;
    SumOverRemove(groups', groups'.Keys, g, f);
    if g in groups {
      assert groups'.Keys == groups.Keys;
      SumOverRemove(groups, groups.Keys, g, f);
      SumOverAgree(groups, groups', groups.Keys - {g}, f);
    } else {
      assert groups'.Keys - {g} == groups.Keys;
      SumOverAgree(groups, groups', groups.Keys, f);
    }
  }

  /** Conservation: the counts of all groups add up to the number of keys and
      their sizes to the sum of the key sizes. */
  lemma {:induction false} AggregateConserves(obs: seq<Observation>)
    ensures SumOver(Aggregate(obs), Aggregate(obs).Keys, CountOf) == |obs|
    ensures SumOver(Aggregate(obs), Aggregate(obs).Keys, SizeOf) == TotalBytes(obs)
  {
    if obs != [] {
      var prefix := obs[..|obs| - 1];
      AggregateConserves(prefix);
      ObserveSum(Aggregate(prefix), obs[|obs| - 1], CountOf);
      ObserveSum(Aggregate(prefix), obs[|obs| - 1], SizeOf);
    }
  }

  /** `s` holds every report of `groups` exactly once and nothing else. */
  ghost predicate ExactlyOnce(s: seq<Report>, groups: map<string, Report>)
  {
    forall r: Report :: multiset(s)[r] == if r.key in groups && groups[r.key] == r then 1 else 0
  }

  /** The copy of the group map into a slice, in the map's (unspecified)
      iteration order. */
  method CollectReports(groups: map<string, Report>) returns (reports: seq<Report>)
    requires KeyedByGroup(groups)
    ensures ExactlyOnce(reports, groups)
  {
    reports := [];
    var pending := groups.Keys;
    while pending != {}
      invariant pending <= groups.Keys
      invariant ExactlyOnce(reports, groups - pending)
      decreases pending
    {
      var k :| k in pending;
      var done := groups - pending;
      var done' := groups - (pending - {k});
      assert done' == done[k := groups[k]];
      forall r: Report
        ensures multiset(reports + [groups[k]])[r] == if r.key in done' && done'[r.key] == r then 1 else 0
      {
        assert multiset(reports)[r] == if r.key in done && done[r.key] == r then 1 else 0;
      }
      reports := reports + [groups[k]];
      pending := pending - {k};
    }
    assert groups - {} == groups;
  }

  function SeqSum(s: seq<Report>, f: Report -> nat): nat
  {
    if s == [] then 0 else SeqSum(s[..|s| - 1], f) + f(s[|s| - 1])
  }

  /** A sequence holding every group once adds up to the sum over the groups. */
  lemma {:induction false} ExactlyOnceSum(s: seq<Report>, groups: map<string, Report>, f: Report -> nat)
    requires KeyedByGroup(groups) && ExactlyOnce(s, groups)
    ensures SeqSum(s, f) == SumOver(groups, groups.Keys, f)
    decreases |s|
  {
    if s != [] {
      var x := s[|s| - 1];
      var s' := s[..|s| - 1];
      assert s == s' + [x];
      assert multiset(s)[x] == 1;
      var groups' := groups - {x.key};
      forall r: Report
        ensures multiset(s')[r] == if r.key in groups' && groups'[r.key] == r then 1 else 0
      {
        assert multiset(s)[r] == if r.key in groups && groups[r.key] == r then 1 else 0;
      }
      ExactlyOnceSum(s', groups', f);
      SumOverRemove(groups, groups.Keys, x.key, f);
      assert groups'.Keys == groups.Keys - {x.key};
      SumOverAgree(groups, groups', groups'.Keys, f);
    }
  }

  /** The slice built for a database, whatever its order: one row per group,
      each with at least one key, counts adding up to the number of keys and
      sizes to the sum of the key sizes. */
  lemma ReportRows(s: seq<Report>, obs: seq<Observation>)
    requires ExactlyOnce(s, Aggregate(obs))
    ensures SeqSum(s, CountOf) == |obs|
    ensures SeqSum(s, SizeOf) == TotalBytes(obs)
    ensures forall i :: 0 <= i < |s| ==>
      s[i].count == Occurrences(obs, s[i].key) >= 1 && s[i].size == GroupBytes(obs, s[i].key)
  {
    AggregateKeyed(obs);
    AggregateConserves(obs);
    ExactlyOnceSum(s, Aggregate(obs), CountOf);
    ExactlyOnceSum(s, Aggregate(obs), SizeOf);
    forall i | 0 <= i < |s|
      ensures s[i].count == Occurrences(obs, s[i].key) >= 1 && s[i].size == GroupBytes(obs, s[i].key)
    {
      assert multiset(s)[s[i]] > 0;
      AggregateGroup(obs, s[i].key);
    }
  }
}
