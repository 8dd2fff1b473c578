/** Discovery of a process tree in one snapshot of parent links; parsed pids and parents are never negative. */
module ProcessTree {
  import opened Wrappers

  datatype TreeError = InvalidRoot | Vanished

  /** A parent chain from `chain[0]` to `root`, every link taken from the snapshot. */
  ghost predicate IsChain(parents: map<nat, nat>, root: nat, chain: seq<nat>) {
    && |chain| > 0
    && chain[|chain| - 1] == root
    && (forall i :: 0 <= i < |chain| ==> chain[i] in parents)
    && (forall i :: 0 <= i < |chain| - 1 ==> parents[chain[i]] == chain[i + 1])
  }

  ghost predicate Descends(parents: map<nat, nat>, root: nat, pid: nat) {
    exists chain: seq<nat> :: IsChain(parents, root, chain) && chain[0] == pid
  }

  /** The processes of the snapshot whose parent chain reaches the root. */
  ghost function Tree(parents: map<nat, nat>, root: nat): set<nat> {
    set pid | pid in parents && Descends(parents, root, pid)
  }

  predicate StrictlyIncreasing(s: seq<nat>) {
    forall i, j :: 0 <= i < j < |s| ==> s[i] < s[j]
  }

  lemma RootDescends(parents: map<nat, nat>, root: nat)
    requires root in parents
    ensures Descends(parents, root, root)
  {
    assert IsChain(parents, root, [root]);
  }

  lemma ChildDescends(parents: map<nat, nat>, root: nat, pid: nat)
    requires pid in parents && Descends(parents, root, parents[pid])
    ensures Descends(parents, root, pid)
  {
    var chain: seq<nat> :| IsChain(parents, root, chain) && chain[0] == parents[pid];
    assert IsChain(parents, root, [pid] + chain);
  }

  /** A set that holds the root and is closed under children holds every descendant. */
  lemma {:induction false} ClosedHoldsChain(parents: map<nat, nat>, root: nat, selected: set<nat>, chain: seq<nat>)
    requires root in selected && IsChain(parents, root, chain)
    requires forall pid :: pid in parents && parents[pid] in selected ==> pid in selected
    ensures chain[0] in selected
    decreases chain
  {
    if |chain| > 1 {
      assert IsChain(parents, root, chain[1..]);
      ClosedHoldsChain(parents, root, selected, chain[1..]);
      assert parents[chain[0]] == chain[1];
    }
  }

  lemma ClosedIsTree(parents: map<nat, nat>, root: nat, selected: set<nat>)
    requires root in selected && selected <= Tree(parents, root)
    requires forall pid :: pid in parents && parents[pid] in selected ==> pid in selected
    ensures selected == Tree(parents, root)
  {
    forall pid | pid in Tree(parents, root)
      ensures pid in selected
    {
      var chain: seq<nat> :| IsChain(parents, root, chain) && chain[0] == pid;
      ClosedHoldsChain(parents, root, selected, chain);
    }
  }

  /** The items of the snapshot, in the order in which the dictionary yields them. */
  ghost predicate Enumerates(items: seq<(nat, nat)>, parents: map<nat, nat>) {
    && (forall i :: 0 <= i < |items| ==> items[i].0 in parents && parents[items[i].0] == items[i].1)
    && (forall pid :: pid in parents ==> (pid, parents[pid]) in items)
  }

  /**
   discover_process_tree after the snapshot was read. Cycles among the links and the order of the items
   make no difference to the result.
   */
  method DiscoverProcessTree(root: int, ghost parents: map<nat, nat>, items: seq<(nat, nat)>)
    returns (r: Result<seq<nat>, TreeError>)
    requires Enumerates(items, parents)
    ensures r == Err(InvalidRoot) <==> root <= 0
    ensures r == Err(Vanished) <==> root > 0 && root !in parents
    ensures r.Ok? ==> StrictlyIncreasing(r.value) && forall pid :: pid in r.value <==> pid in Tree(parents, root)
  {
    if root <= 0 {
      return Err(InvalidRoot);
    }
    if !exists i :: 0 <= i < |items| && items[i].0 == root {
      return Err(Vanished);
    }
    RootDescends(parents, root);
    var selected := {root};
    var changed := true;
    while changed
      invariant root in selected && selected <= Tree(parents, root)
      invariant !changed ==> forall i :: 0 <= i < |items| && items[i].1 in selected ==> items[i].0 in selected
      decreases Tree(parents, root) - selected, changed
    {
      changed := false;
      ghost var before := selected;
      for i := 0 to |items|
        invariant before <= selected <= Tree(parents, root)
        invariant changed <==> before != selected
        invariant !changed ==> forall k :: 0 <= k < i && items[k].1 in selected ==> items[k].0 in selected
      {
        var pid, parent := items[i].0, items[i].1;
        if pid !in selected && parent in selected {
          ChildDescends(parents, root, pid);
          selected := selected + {pid};
          changed := true;
        }
      }
    }
    ClosedIsTree(parents, root, selected);
    var sorted := Sorted(selected);
    r := Ok(sorted);
  }

  /** tuple(sorted(...)) of a set of integers. */
  method Sorted(s: set<nat>) returns (r: seq<nat>)
    ensures StrictlyIncreasing(r) && forall x :: x in r <==> x in s
  {
    r := [];
    var rest := s;
    while rest != {}
      invariant StrictlyIncreasing(r)
      invariant forall x :: x in s <==> x in r || x in rest
      invariant forall i, y :: 0 <= i < |r| && y in rest ==> r[i] < y
      decreases rest
    {
      var least := Least(rest);
      r := r + [least];
      rest := rest - {least};
    }
  }

  method Least(s: set<nat>) returns (least: nat)
    requires s != {}
    ensures least in s && forall x :: x in s ==> least <= x
  {
    least :| least in s;
    var rest := s - {least};
    while rest != {}
      invariant rest <= s && least in s
      invariant forall x :: x in s && x !in rest ==> least <= x
      decreases rest
    {
      var x :| x in rest;
      if x < least {
        least := x;
      }
      rest := rest - {x};
    }
  }

  /** The list is determined by the snapshot alone. */
  lemma {:induction false} IncreasingIsUnique(a: seq<nat>, b: seq<nat>)
    requires StrictlyIncreasing(a) && StrictlyIncreasing(b)
    requires forall x :: x in a <==> x in b
    ensures a == b
    decreases |a|
  {
    assert a != [] ==> a[0] in a;
    assert b != [] ==> b[0] in b;
    if a != [] {
      assert a[0] in b && b[0] in a;
      forall x
        ensures x in a[1..] <==> x in b[1..]
      {
        assert x in a[1..] <==> x in a && x != a[0];
        assert x in b[1..] <==> x in b && x != b[0];
      }
      IncreasingIsUnique(a[1..], b[1..]);
      assert a == [a[0]] + a[1..] && b == [b[0]] + b[1..];
    }
  }
}
