/**
  `TaggedCounter`: one named metric with one tag key, holding a counter per
  tag value seen so far. `Increment` is `getOrPut` followed by `increment()`:
  the first call for a tag value registers a counter at zero, every call adds
  one to the counter of its tag value.

  The specification is a pure account of the calls made so far: `Tally` is
  the table that a given history of tag values produces, `FirstSeen` the
  tag values in the order their counters were registered, and `Total` the sum
  of all counter values.
 */
module TaggedCounters {

  /** The value of the counter for `t`, 0 when no counter exists for it. */
  function Get(m: map<string, nat>, t: string): nat
  {
    if t in m then m[t] else 0
  }

  /** One `increment(t)` applied to a table: get-or-create, then add one. */
  function Bump(m: map<string, nat>, t: string): map<string, nat>
  {
    if t in m then m[t := m[t] + 1] else m[t := 1]
  }

  /** The table after incrementing the tag values of `h`, in order. */
  function Tally(h: seq<string>): map<string, nat>
  {
    if h == [] then map[] else Bump(Tally(h[..|h| - 1]), h[|h| - 1])
  }

  /** The tag values of `h` in the order their counters get registered. */
  function FirstSeen(h: seq<string>): seq<string>
  {
    if h == [] then []
    else
      var prefix, t := h[..|h| - 1], h[|h| - 1];
      if t in prefix then FirstSeen(prefix) else FirstSeen(prefix) + [t]
  }

  ghost predicate NoDuplicates(s: seq<string>)
  {
    forall i, j :: 0 <= i < j < |s| ==> s[i] != s[j]
  }

  /** The sum of all counter values of a table. */
  ghost function Total(m: map<string, nat>): nat
    decreases |m|
  {
    if m == map[] then 0
    else
      var k :| k in m;
      assert |m - {k}| < |m| by { assert (m - {k}).Keys == m.Keys - {k}; }
      m[k] + Total(m - {k})
  }

  lemma LastOfAppend(h: seq<string>, t: string)
    ensures (h + [t])[..|h|] == h && (h + [t])[|h|] == t
  {
  }

  /** A counter exists for `t` exactly when `t` was passed, and its value is
      the number of times it was passed. */
  lemma {:induction false} TallyGet(h: seq<string>, t: string)
    ensures t in Tally(h) <==> t in h
    ensures Get(Tally(h), t) == multiset(h)[t]
    decreases |h|
  {
    if h != [] {
      var prefix, u := h[..|h| - 1], h[|h| - 1];
      TallyGet(prefix, t);
      assert h == prefix + [u];
      assert multiset(h) == multiset(prefix) + multiset{u};
    }
  }

  /** Every counter in a tally has been incremented at least once. */
  lemma {:induction false} TallyPositive(h: seq<string>, t: string)
    requires t in Tally(h)
    ensures Tally(h)[t] >= 1
  {
    TallyGet(h, t);
    assert t in multiset(h);
  }

  /** Further calls add to each counter the number of times its tag value
      occurs among them. */
  lemma TallyAppend(h: seq<string>, ext: seq<string>, t: string)
    ensures Get(Tally(h + ext), t) == Get(Tally(h), t) + multiset(ext)[t]
  {
    TallyGet(h, t);
    TallyGet(h + ext, t);
    assert multiset(h + ext) == multiset(h) + multiset(ext);
  }

  /** Counter values never go down: extending the history of calls keeps
      every counter and never lowers its value. */
  lemma TallyMonotone(h: seq<string>, ext: seq<string>, t: string)
    requires t in Tally(h)
    ensures t in Tally(h + ext)
    ensures Tally(h)[t] <= Tally(h + ext)[t]
  {
    TallyAppend(h, ext, t);
    TallyGet(h + ext, t);
    assert t in h + ext by { TallyGet(h, t); }
  }

  /** Summing a table can start from any key. */
  lemma {:induction false} TotalRemove(m: map<string, nat>, k: string)
    requires k in m
    ensures Total(m) == m[k] + Total(m - {k})
    decreases |m|
  {
    var j :| j in m && Total(m) == m[j] + Total(m - {j});
    if j != k {
      var mj, mk := m - {j}, m - {k};
      assert |mj| < |m| by { assert mj.Keys == m.Keys - {j}; }
      assert |mk| < |m| by { assert mk.Keys == m.Keys - {k}; }
      TotalRemove(mj, k);
      TotalRemove(mk, j);
      assert mj - {k} == mk - {j};
    }
  }

  /** One increment adds exactly one to the total. */
  lemma TotalBump(m: map<string, nat>, t: string)
    ensures Total(Bump(m, t)) == Total(m) + 1
  {
    var b := Bump(m, t);
    TotalRemove(b, t);
    if t in m {
      TotalRemove(m, t);
      assert b - {t} == m - {t};
    } else {
      assert b - {t} == m;
    }
  }

  /** No increment is lost: the counter values add up to the number of
      `increment` calls. */
  lemma {:induction false} TallyTotal(h: seq<string>)
    ensures Total(Tally(h)) == |h|
    decreases |h|
  {
    if h != [] {
      TallyTotal(h[..|h| - 1]);
      TotalBump(Tally(h[..|h| - 1]), h[|h| - 1]);
    }
  }

  /** The registered tag values are exactly the tag values passed, each
      registered once. */
  lemma {:induction false} FirstSeenDistinct(h: seq<string>)
    ensures forall t :: t in FirstSeen(h) <==> t in h
    ensures NoDuplicates(FirstSeen(h))
    decreases |h|
  {
    if h != [] {
      var prefix, t := h[..|h| - 1], h[|h| - 1];
      FirstSeenDistinct(prefix);
      assert h == prefix + [t];
    }
  }

  lemma {:induction false} DistinctCardinality(s: seq<string>)
    requires NoDuplicates(s)
    ensures |set x | x in s| == |s|
    decreases |s|
  {
    if s != [] {
      var prefix, t := s[..|s| - 1], s[|s| - 1];
      assert NoDuplicates(prefix) by {
        forall i, j | 0 <= i < j < |prefix| ensures prefix[i] != prefix[j] {
          assert prefix[i] == s[i] && prefix[j] == s[j];
        }
      }
      DistinctCardinality(prefix);
      assert s == prefix + [t];
      assert t !in prefix by {
        forall i | 0 <= i < |prefix| ensures prefix[i] != t {
          assert prefix[i] == s[i];
        }
      }
      assert (set x | x in s) == (set x | x in prefix) + {t};
    }
  }

  /** The number of registrations equals the number of distinct tag values
      passed. */
  lemma FirstSeenCount(h: seq<string>)
    ensures |FirstSeen(h)| == |set t | t in h|
  {
    FirstSeenDistinct(h);
    DistinctCardinality(FirstSeen(h));
    assert (set t | t in FirstSeen(h)) == (set t | t in h);
  }

  /** What the table of a valid counter promises over any sequence of
      calls: one registration per distinct tag value, never two for the same
      one, every counter at least 1, and no increment lost. */
  lemma CounterFacts(c: TaggedCounter, t: string)
    requires c.Valid()
    ensures |c.registered| == |set u | u in c.history|
    ensures NoDuplicates(c.registered)
    ensures t in c.counters ==> c.counters[t] >= 1
    ensures Total(c.counters) == |c.history|
  {
    FirstSeenCount(c.history);
    FirstSeenDistinct(c.history);
    if t in c.counters {
      TallyPositive(c.history, t);
    }
    TallyTotal(c.history);
  }

  class TaggedCounter {
    const name: string
    const tagName: string
    /** The `counters` table: the counter value of each registered tag value. */
    var counters: map<string, nat>
    /** Every tag value passed to `Increment`, in order. */
    ghost var history: seq<string>
    /** The tag value of each registration with the meter registry, in order. */
    ghost var registered: seq<string>

    ghost predicate Valid()
      reads this
    {
      && counters == Tally(history)
      && registered == FirstSeen(history)
    }

    constructor (name: string, tagName: string)
      ensures Valid()
      ensures this.name == name && this.tagName == tagName
      ensures counters == map[] && history == [] && registered == []
    {
      this.name := name;
      this.tagName := tagName;
      counters := map[];
      history := [];
      registered := [];
    }

    /** `counters.getOrPut(tagValue) { register a counter at 0 }.increment()` */
    method Increment(tagValue: string)
      requires Valid()
      modifies this
      ensures Valid()
      ensures history == old(history) + [tagValue]
      ensures tagValue !in old(counters) ==>
        && counters == old(counters)[tagValue := 1]
        && registered == old(registered) + [tagValue]
      ensures tagValue in old(counters) ==>
        && counters == old(counters)[tagValue := old(counters)[tagValue] + 1]
        && registered == old(registered)
    {
      LastOfAppend(history, tagValue);
      TallyGet(history, tagValue);
      var counter: nat;
      if tagValue in counters {
        counter := counters[tagValue];
      } else {
        counter := 0;
        counters := counters[tagValue := counter];
        registered := registered + [tagValue];
      }
      counters := counters[tagValue := counter + 1];
      history := history + [tagValue];
    }
  }
}
