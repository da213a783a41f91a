/** `Group` (src/group.rs): an unordered bag spread over one `ConcurrentStack`
    segment per CPU. The random segment indices drawn by `add_with_guard` and
    `remove_with_guard` are inputs. */
module Groups {
  import opened Common
  import opened Stacks

  /** The total number of elements over all segments. */
  function Total<T>(parts: seq<seq<T>>): (n: nat)
    ensures parts == [] ==> n == 0
  {
    if parts == [] then 0 else Total(parts[..|parts| - 1]) + |parts[|parts| - 1]|
  }

  /** Replacing one segment changes the total by the change in its length. */
  lemma {:induction false} TotalUpdate<T>(parts: seq<seq<T>>, i: nat, part: seq<T>)
    requires i < |parts|
    ensures Total(parts[i := part]) + |parts[i]| == Total(parts) + |part|
    decreases |parts|
  {
    var last := |parts| - 1;
    assert parts[i := part][..last] == if i == last then parts[..last] else parts[..last][i := part];
    if i < last {
      TotalUpdate(parts[..last], i, part);
    }
  }

  /** The total is zero exactly when every segment is empty. */
  lemma {:induction false} TotalZero<T>(parts: seq<seq<T>>)
    ensures Total(parts) == 0 <==> forall i :: 0 <= i < |parts| ==> parts[i] == []
    decreases |parts|
  {
    if parts != [] {
      var last := |parts| - 1;
      TotalZero(parts[..last]);
      assert forall i :: 0 <= i < last ==> parts[..last][i] == parts[i];
    }
  }

  class Group<T> {
    const segmentCount: nat
    const segments: seq<ConcurrentStack<T>>

    ghost predicate Valid()
      reads this, segments, set s, o | s in segments && o in s.Repr :: o
    {
      && segmentCount == |segments| && segmentCount >= 1
      && (forall i :: 0 <= i < |segments| ==> segments[i].Valid())
      && (forall i, j :: 0 <= i < |segments| && 0 <= j < |segments| && i != j ==>
            segments[i] !in segments[j].Repr)
    }

    /** The contents of each segment, in segment order. */
    ghost function Contents(): (parts: seq<seq<T>>)
      reads this, segments
      ensures |parts| == |segments|
      ensures forall i :: 0 <= i < |segments| ==> parts[i] == segments[i].contents
    {
      seq(|segments|, i reads segments requires 0 <= i < |segments| => segments[i].contents)
    }

    /** `new`: one empty segment per CPU; `num_cpus::get` is at least 1. */
    constructor New(cpus: nat)
      requires cpus >= 1
      ensures Valid() && segmentCount == cpus
      ensures Contents() == seq(cpus, _ => [])
      ensures forall i :: 0 <= i < |segments| ==> fresh(segments[i].Repr)
    {
      var made: seq<ConcurrentStack<T>> := [];
      for i := 0 to cpus
        invariant |made| == i
        invariant forall j :: 0 <= j < i ==> made[j].Valid() && fresh(made[j].Repr) && made[j].contents == []
        invariant forall j, k :: 0 <= j < i && 0 <= k < i && j != k ==> made[j] !in made[k].Repr
      {
        var stack := new ConcurrentStack.New();
        made := made + [stack];
      }
      segmentCount := cpus;
      segments := made;
    }

    /** A change to segment `index` alone that keeps it valid and only adds
        fresh objects to its `Repr` keeps the group valid. */
    twostate lemma ValidAfterOne(index: nat)
      requires old(Valid()) && index < segmentCount && unchanged(this)
      requires segments[index].Valid() && fresh(segments[index].Repr - old(segments[index].Repr))
      requires forall i :: 0 <= i < |segments| && i != index ==> unchanged(segments[i]) && unchanged(old(segments[i].Repr))
      ensures Valid()
    {
    }

    /** `add_with_guard`: push onto the segment `index`, drawn below
        `segment_count`; the other segments are unchanged. */
    method Add(element: T, index: nat)
      requires Valid() && index < segmentCount
      modifies segments[index]
      ensures Valid() && fresh(segments[index].Repr - old(segments[index].Repr))
      ensures Contents() == old(Contents())[index := [element] + old(Contents())[index]]
      ensures Total(Contents()) == Total(old(Contents())) + 1
    {
      segments[index].Push(element);
      ValidAfterOne(index);
      assert Contents() == old(Contents())[index := [element] + old(Contents())[index]];
      TotalUpdate(old(Contents()), index, [element] + old(Contents())[index]);
    }

    /** One probe of `remove_with_guard`: pop the segment `index`. */
    method PopAt(index: nat) returns (r: Option<T>)
      requires Valid() && index < segmentCount
      modifies segments[index]
      ensures Valid()
      ensures old(Contents())[index] == [] ==> r == None && Contents() == old(Contents())
      ensures old(Contents())[index] != [] ==>
        && r == Some(old(Contents())[index][0])
        && Contents() == old(Contents())[index := old(Contents())[index][1..]]
        && Total(Contents()) + 1 == Total(old(Contents()))
    {
      ghost var before := Contents();
      assert before[index] == segments[index].contents;
      r := segments[index].Pop();
      ValidAfterOne(index);
      if r.Some? {
        assert Contents() == before[index := before[index][1..]];
        TotalUpdate(before, index, before[index][1..]);
      } else {
        assert Contents() == before;
      }
    }

    /** `remove_with_guard`: pop from `start`, `start + 1`, ... modulo
        `segment_count`, returning the first element found, or None once the probe
        has come back round to `start`. */
    method Remove(start: nat) returns (r: Option<T>)
      requires Valid() && start < segmentCount
      modifies segments
      ensures Valid()
      ensures r.None? <==> forall i :: 0 <= i < segmentCount ==> old(Contents())[i] == []
      ensures r.None? ==> Contents() == old(Contents())
      ensures r.Some? ==>
        exists d :: 0 <= d < segmentCount && FirstNonEmpty(old(Contents()), start, d) &&
          var index := Probe(start, d, segmentCount);
          r == Some(old(Contents())[index][0]) && Contents() == old(Contents())[index := old(Contents())[index][1..]]
      ensures r.Some? ==> Total(Contents()) + 1 == Total(old(Contents()))
    {
      ghost var parts := Contents();
      var index := start;
      ghost var d := 0;
      while true
        invariant Valid() && Contents() == parts
        invariant 0 <= d < segmentCount && index == Probe(start, d, segmentCount)
        invariant forall e :: 0 <= e < d ==> parts[Probe(start, e, segmentCount)] == []
        decreases segmentCount - d
      {
        r := PopAt(index);
        if r.Some? {
          assert FirstNonEmpty(parts, start, d);
          return;
        }
        ProbeStep(start, d, segmentCount);
        index := (index + 1) % segmentCount;
        d := d + 1;
        if index == start {
          ProbesCoverAll(parts, start);
          return;
        }
      }
    }
  }

  /** The probe from `start` finds its first non-empty segment after `d` steps. */
  ghost predicate FirstNonEmpty<T>(parts: seq<seq<T>>, start: nat, d: nat)
    requires start < |parts| && d < |parts|
  {
    && (forall e :: 0 <= e < d ==> parts[Probe(start, e, |parts|)] == [])
    && parts[Probe(start, d, |parts|)] != []
  }

  /** The segment the probe from `start` reaches after `d` steps, for `d <= n`:
      `(start + d) % n`, as `ProbeIsMod` shows. */
  function Probe(start: nat, d: nat, n: nat): (i: nat)
    requires start < n && d <= n
    ensures d < n ==> i < n
  {
    if start + d < n then start + d else start + d - n
  }

  lemma ProbeIsMod(start: nat, d: nat, n: nat)
    requires start < n && d <= n
    ensures Probe(start, d, n) == (start + d) % n
  {
  }

  /** Advancing the index by one modulo `n` is one more step of the probe, and
      the probe is back at `start` only after `n` steps. */
  lemma ProbeStep(start: nat, d: nat, n: nat)
    requires start < n && d < n
    ensures (Probe(start, d, n) + 1) % n == Probe(start, d + 1, n)
    ensures Probe(start, d + 1, n) == start <==> d + 1 == n
  {
  }

  /** Within `n` steps the probe from `start` visits every segment. */
  lemma ProbeCovers(start: nat, i: nat, n: nat)
    requires start < n && i < n
    ensures exists e :: 0 <= e < n && Probe(start, e, n) == i
  {
    if start <= i {
      assert Probe(start, i - start, n) == i;
    } else {
      assert Probe(start, n - start + i, n) == i;
    }
  }

  /** A probe that found every segment it visited empty, for all `n` steps,
      has found every segment empty. */
  lemma ProbesCoverAll<T>(parts: seq<seq<T>>, start: nat)
    requires start < |parts|
    requires forall e :: 0 <= e < |parts| ==> parts[Probe(start, e, |parts|)] == []
    ensures forall i :: 0 <= i < |parts| ==> parts[i] == []
  {
    forall i | 0 <= i < |parts|
      ensures parts[i] == []
    {
      ProbeCovers(start, i, |parts|);
    }
  }

  /** `GroupIter`: each `next` removes an element of the group. */
  class GroupIter<T> {
    const group: Group<T>

    constructor New(group: Group<T>)
      ensures this.group == group
    {
      this.group := group;
    }

    /** `next`: exactly `remove_with_guard` of the group, so iteration ends only
        once the group is drained. */
    method Next(start: nat) returns (r: Option<T>)
      requires group.Valid() && start < group.segmentCount
      modifies group.segments
      ensures group.Valid()
      ensures r.None? <==> Total(old(group.Contents())) == 0
      ensures r.None? <==> forall i :: 0 <= i < group.segmentCount ==> old(group.Contents())[i] == []
      ensures r.None? ==> group.Contents() == old(group.Contents())
      ensures r.Some? ==>
        exists d :: 0 <= d < group.segmentCount && FirstNonEmpty(old(group.Contents()), start, d) &&
          var index := Probe(start, d, group.segmentCount);
          r == Some(old(group.Contents())[index][0]) &&
          group.Contents() == old(group.Contents())[index := old(group.Contents())[index][1..]]
      ensures r.Some? ==> Total(group.Contents()) + 1 == Total(old(group.Contents()))
    {
      r := group.Remove(start);
      TotalZero(old(group.Contents()));
    }
  }
}
