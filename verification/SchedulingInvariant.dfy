/** Every scheduler step keeps `Inv`, so every run does. */
module SchedulingInvariant {
  import opened Options
  import opened Scheduling
  import opened Sequences

  // ----- List lemmas -----

  lemma {:induction false} RemoveFacts<T>(q: seq<T>, t: T)
    requires Distinct(q) && t in q
    ensures var r := Remove(q, t);
      && |r| == |q| - 1 && Distinct(r)
      && (forall u | u in r :: u in q && u != t)
      && (forall u | u in q && u != t :: u in r)
  {
    if q[0] != t {
      assert Distinct(q[1..]);
      RemoveFacts(q[1..], t);
      assert q == [q[0]] + q[1..];
      assert q[0] !in q[1..];
    } else {
      assert q == [t] + q[1..];
      assert t !in q[1..];
    }
  }

  lemma {:induction false} RemoveKeepsSorted<T>(q: seq<T>, info: map<T, Info>, t: T)
    requires forall u | u in q :: u in info
    requires Distinct(q) && t in q && Sorted(q, info)
    ensures (forall u | u in Remove(q, t) :: u in info) && Sorted(Remove(q, t), info)
  {
    RemoveFacts(q, t);
    var rest := q[1..];
    assert q == [q[0]] + rest;
    assert Distinct(rest) && Sorted(rest, info);
    if q[0] != t {
      RemoveKeepsSorted(rest, info, t);
      RemoveFacts(rest, t);
      forall u | u in rest ensures TimerBefore(info[q[0]], info[u]) {
        var i :| 0 <= i < |rest| && rest[i] == u;
        assert q[i + 1] == u;
      }
    }
  }

  /** Insertion puts the new thread after every earlier or equal deadline and before
      every later one. */
  lemma {:induction false} InsertFacts<T>(q: seq<T>, info: map<T, Info>, t: T, deadline: nat)
    returns (n: nat)
    requires forall u | u in q :: u in info
    requires Sorted(q, info)
    ensures n <= |q| && Insert(q, info, t, deadline) == q[..n] + [t] + q[n..]
    ensures forall u | u in q[..n] :: info[u].deadline <= deadline
    ensures forall u | u in q[n..] :: info[u].deadline > deadline
  {
    if q == [] {
      n := 0;
    } else if deadline < info[q[0]].deadline {
      n := 0;
      assert q[..0] + [t] + q[0..] == [t] + q;
    } else {
      var rest := q[1..];
      assert Sorted(rest, info);
      var m := InsertFacts(rest, info, t, deadline);
      n := m + 1;
      assert q[..n] == [q[0]] + rest[..m];
      assert q[n..] == rest[m..];
    }
  }

  /** The expired prefix of a sorted list is exactly its expired part. */
  lemma {:induction false} ExpiredFacts<T>(q: seq<T>, info: map<T, Info>, ticks: nat)
    requires forall u | u in q :: u in info
    requires Sorted(q, info)
    ensures var n := ExpiredCount(q, info, ticks);
      && (forall u | u in q[..n] :: info[u].deadline <= ticks)
      && (forall u | u in q[n..] :: info[u].deadline > ticks)
  {
    if q != [] && info[q[0]].deadline <= ticks {
      var rest := q[1..];
      assert Sorted(rest, info);
      ExpiredFacts(rest, info, ticks);
      var n := ExpiredCount(rest, info, ticks);
      assert q[..n + 1] == [q[0]] + rest[..n];
      assert q[n + 1..] == rest[n..];
    }
  }

  lemma {:induction false} DropDeadFacts<T>(q: seq<T>, info: map<T, Info>) returns (n: nat)
    requires forall u | u in q :: u in info
    ensures n <= |q| && DropDead(q, info) == q[n..]
    ensures forall i :: 0 <= i < n ==> info[q[i]].state == Dead
    ensures n < |q| ==> info[q[n]].state != Dead
  {
    if q == [] || info[q[0]].state != Dead {
      n := 0;
    } else {
      var m := DropDeadFacts(q[1..], info);
      n := m + 1;
      forall i | 0 <= i < n ensures info[q[i]].state == Dead {
        if i > 0 { assert q[i] == q[1..][i - 1]; }
      }
      if n < |q| { assert q[n] == q[1..][m]; }
    }
  }

  // ----- Each operation keeps the invariant -----

  lemma InitInv<T>()
    ensures Inv(Empty<T>())
  {
  }

  ghost predicate SameTime(a: Info, b: Info) {
    a.deadline == b.deadline && a.stamp == b.stamp
  }

  /** A list stays sorted when no deadline or stamp of its members changes. */
  lemma SortedFrame<T>(q: seq<T>, info: map<T, Info>, after: map<T, Info>)
    requires forall u | u in q :: u in info && u in after && SameTime(info[u], after[u])
    requires Sorted(q, info)
    ensures Sorted(q, after)
  {
    forall i, j | 0 <= i < j < |q| ensures TimerBefore(after[q[i]], after[q[j]]) {
      assert q[i] in q && q[j] in q;
    }
  }

  lemma UnlinkInv<T>(s: Sched<T>, t: T)
    requires Inv(s) && t in s.info
    ensures Inv(Unlink(s, t))
    ensures t !in Unlink(s, t).timers
  {
    if s.info[t].state == Timer {
      RemoveFacts(s.timers, t);
      RemoveKeepsSorted(s.timers, s.info, t);
      SortedFrame(Remove(s.timers, t), s.info, Unlink(s, t).info);
    }
  }

  lemma ActivateInv<T>(s: Sched<T>, t: T)
    requires Inv(s) && t in s.info && s.info[t].state == Suspended && t !in s.active
    ensures Inv(Activate(s, t))
  {
    SortedFrame(s.timers, s.info, Activate(s, t).info);
  }

  lemma ResumeInv<T>(s: Sched<T>, t: T)
    requires Inv(s) && t in s.info
    ensures Inv(Resume(s, t))
    ensures Resume(s, t).info[t].state == (if s.info[t].state == Dead then Dead else Active)
  {
    UnlinkInv(s, t);
    if s.info[t].state == Timer || s.info[t].state == Suspended {
      ActivateInv(Unlink(s, t), t);
    }
  }

  lemma StartInv<T>(s: Sched<T>, t: T)
    requires Inv(s) && t !in s.info
    ensures Inv(Start(s, t))
  {
    SortedFrame(s.timers, s.info, Start(s, t).info);
  }

  lemma {:induction false} ResumeAllInv<T>(s: Sched<T>, order: seq<T>)
    requires Inv(s) && forall u | u in order :: u in s.info
    ensures Inv(ResumeAll(s, order))
    decreases order
  {
    if order != [] {
      ResumeInv(s, order[0]);
      ResumeAllInv(Resume(s, order[0]), order[1..]);
    }
  }

  lemma MarkDeadInv<T>(s: Sched<T>, t: T)
    requires Inv(s) && t in s.info && t !in s.timers && s.running != Some(t)
    ensures Inv(MarkDead(s, t))
  {
    SortedFrame(s.timers, s.info, MarkDead(s, t).info);
  }

  lemma MarkRunningDeadInv<T>(s: Sched<T>)
    requires Inv(s) && s.running.Some?
    ensures Inv(MarkDead(s.(running := None, inside := false), s.running.value))
  {
    SortedFrame(s.timers, s.info, MarkDead(s, s.running.value).info);
  }

  lemma KillInv<T>(s: Sched<T>, t: T, order: seq<T>)
    requires Inv(s) && t in s.info && s.running != Some(t) && IsOrder(s, t, order)
    ensures (forall u | u in order :: u in s.info) && Inv(Kill(s, t, order))
  {
    RecordedKnown(s, t, order);
    if s.info[t].state != Dead {
      UnlinkInv(s, t);
      MarkDeadInv(Unlink(s, t), t);
      ResumeAllInv(MarkDead(Unlink(s, t), t), order);
    }
  }

  lemma TerminateInv<T>(s: Sched<T>, order: seq<T>)
    requires Inv(s) && s.running.Some? && IsOrder(s, s.running.value, order)
    ensures (forall u | u in order :: u in s.info) && Inv(Terminate(s, order))
  {
    var t := s.running.value;
    RecordedKnown(s, t, order);
    MarkRunningDeadInv(s);
    ResumeAllInv(MarkDead(s.(running := None, inside := false), t), order);
  }

  lemma ParkInv<T>(s: Sched<T>)
    requires Inv(s) && s.running.Some?
    ensures Inv(Park(s))
  {
    SortedFrame(s.timers, s.info, Park(s).info);
  }

  lemma JoinInv<T>(s: Sched<T>, target: T)
    requires Inv(s) && s.running.Some? && target in s.info
    ensures Inv(Join(s, target))
  {
    if s.info[target].state != Dead {
      var r := s.(joiners := s.joiners[target := Record(s, target, s.running.value)],
                  joining := s.joining[s.running.value := target]);
      SortedFrame(r.timers, s.info, r.info);
      assert Inv(r);
      ParkInv(r);
    }
  }

  lemma RejoinInv<T>(s: Sched<T>)
    requires Inv(s) && s.running.Some? && s.running.value in s.joining
    ensures Inv(Rejoin(s))
  {
    ParkInv(s);
    SortedFrame(s.timers, s.info, s.info);
  }

  lemma InsertedIsSorted<T>(q: seq<T>, info: map<T, Info>, after: map<T, Info>, t: T, n: nat)
    requires n <= |q| && (forall u | u in q :: u in info) && Sorted(q, info)
    requires t in after && forall u | u in q :: u in after && after[u] == info[u]
    requires forall k :: 0 <= k < n ==> TimerBefore(after[q[k]], after[t])
    requires forall k :: n <= k < |q| ==> TimerBefore(after[t], after[q[k]])
    ensures forall u | u in q[..n] + [t] + q[n..] :: u in after
    ensures Sorted(q[..n] + [t] + q[n..], after)
  {
    var r := q[..n] + [t] + q[n..];
    forall i, j | 0 <= i < j < |r| ensures TimerBefore(after[r[i]], after[r[j]]) {
      if i == n {
        assert r[j] == q[j - 1];
      } else if j == n {
        assert r[i] == q[i];
      } else {
        var a, b := if i < n then i else i - 1, if j < n then j else j - 1;
        assert r[i] == q[a] && r[j] == q[b] && TimerBefore(info[q[a]], info[q[b]]);
      }
    }
  }

  lemma InsertBounds<T>(q: seq<T>, info: map<T, Info>, t: T, deadline: nat) returns (n: nat)
    requires (forall u | u in q :: u in info) && Sorted(q, info)
    ensures n <= |q| && Insert(q, info, t, deadline) == q[..n] + [t] + q[n..]
    ensures forall k :: 0 <= k < n ==> info[q[k]].deadline <= deadline
    ensures forall k :: n <= k < |q| ==> deadline < info[q[k]].deadline
  {
    n := InsertFacts(q, info, t, deadline);
    forall k | 0 <= k < |q| ensures if k < n then info[q[k]].deadline <= deadline else deadline < info[q[k]].deadline {
      if k < n { assert q[k] in q[..n]; } else { assert q[k] == q[n..][k - n]; }
    }
  }

  lemma SleepOrder<T>(s: Sched<T>, deadline: nat)
    requires Inv(s) && s.running.Some?
    ensures Known(Sleep(s, deadline)) && TimersInOrder(Sleep(s, deadline))
  {
    var n := InsertBounds(s.timers, s.info, s.running.value, deadline);
    var r := Sleep(s, deadline);
    assert forall u | u in s.timers :: u != s.running.value && r.info[u] == s.info[u];
    InsertedIsSorted(s.timers, s.info, r.info, s.running.value, n);
  }

  lemma SleepMembers<T>(s: Sched<T>, deadline: nat)
    requires Inv(s) && s.running.Some?
    ensures Distinct(Sleep(s, deadline).timers)
    ensures forall u :: u in Sleep(s, deadline).timers <==> u in s.timers || u == s.running.value
  {
    var q := s.timers;
    var n := InsertFacts(q, s.info, s.running.value, deadline);
    assert q == q[..n] + q[n..];
  }

  lemma SleepInv<T>(s: Sched<T>, deadline: nat)
    requires Inv(s) && s.running.Some?
    ensures Inv(Sleep(s, deadline))
  {
    SleepOrder(s, deadline);
    SleepMembers(s, deadline);
    assert Shape(Sleep(s, deadline));
    assert States(Sleep(s, deadline));
  }

  lemma SplitMembers<T>(q: seq<T>, n: nat)
    requires Distinct(q) && n <= |q|
    ensures Distinct(q[..n]) && Distinct(q[n..])
    ensures forall u | u in q :: u in q[..n] <==> u !in q[n..]
    ensures (forall u | u in q[..n] :: u in q) && (forall u | u in q[n..] :: u in q)
  {
    assert q == q[..n] + q[n..];
  }

  lemma SpliceShape<T>(s: Sched<T>, ticks: nat)
    requires Inv(s)
    ensures Wf(Splice(s, ticks)) && Shape(Splice(s, ticks)) && TimersInOrder(Splice(s, ticks))
  {
    var n, r := ExpiredCount(s.timers, s.info, ticks), Splice(s, ticks);
    SplitMembers(s.timers, n);
    SortedFrame(r.timers, s.info, r.info);
  }

  lemma SpliceInv<T>(s: Sched<T>, ticks: nat)
    requires Inv(s)
    ensures Inv(Splice(s, ticks))
  {
    var n, r := ExpiredCount(s.timers, s.info, ticks), Splice(s, ticks);
    SpliceShape(s, ticks);
    SplitMembers(s.timers, n);
    assert States(r);
  }

  lemma SuffixMembers<T>(q: seq<T>, n: nat, info: map<T, Info>)
    requires n <= |q| && (forall u | u in q :: u in info)
    requires forall i :: 0 <= i < n ==> info[q[i]].state == Dead
    ensures forall u | u in q && info[u].state == Active :: u in q[n..]
  {
    forall u | u in q && info[u].state == Active ensures u in q[n..] {
      var i :| 0 <= i < |q| && q[i] == u;
      assert q[n..][i - n] == u;
    }
  }

  lemma ChooseInv<T>(s: Sched<T>)
    requires Inv(s)
    ensures Inv(Choose(s))
  {
    if s.active != [] {
      var q := Rotated(s);
      var n := DropDeadFacts(q, s.info);
      SuffixMembers(q, n, s.info);
      CutInv(s, n);
    }
  }

  ghost function CutAt<T>(s: Sched<T>, n: nat): Sched<T>
    requires n <= |Rotated(s)|
  {
    var q := Rotated(s);
    if n == |q| then s.(active := [], running := None, inside := false)
    else s.(active := q[n + 1..], running := Some(q[n]), inside := true)
  }

  lemma TailMembers<T>(q: seq<T>, n: nat)
    requires Distinct(q) && n < |q|
    ensures Distinct(q[n + 1..]) && q[n] !in q[n + 1..] && q[n] in q
    ensures forall u | u in q[n + 1..] :: u in q
    ensures forall u | u in q[n..] :: u in q[n + 1..] || u == q[n]
  {
    assert q[n..] == [q[n]] + q[n + 1..];
    assert q == q[..n + 1] + q[n + 1..];
  }

  lemma CutShape<T>(s: Sched<T>, n: nat)
    requires Inv(s) && n <= |Rotated(s)|
    ensures Wf(CutAt(s, n)) && Shape(CutAt(s, n))
    ensures forall u | u in CutAt(s, n).active :: u in Rotated(s)
    ensures forall u | u in Rotated(s)[n..] :: u in CutAt(s, n).active || Some(u) == CutAt(s, n).running
  {
    var q := Rotated(s);
    assert Distinct(q);
    assert forall u | u in q :: u !in s.timers && u in s.info;
    if n < |q| { TailMembers(q, n); }
  }

  lemma CutInv<T>(s: Sched<T>, n: nat)
    requires Inv(s) && n <= |Rotated(s)|
    requires forall u | u in Rotated(s) && s.info[u].state == Active :: u in Rotated(s)[n..]
    requires n < |Rotated(s)| ==> s.info[Rotated(s)[n]].state != Dead
    ensures Inv(CutAt(s, n))
  {
    CutShape(s, n);
    var q := Rotated(s);
    if n < |q| { assert q[n] in q; }
    assert forall u | u in q :: s.info[u].state == Active || s.info[u].state == Dead;
  }
}
