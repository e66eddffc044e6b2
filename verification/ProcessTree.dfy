/** The processes below a root, from a snapshot of each one's parent. */
module ProcessTree {
  import opened Wrappers

  type Parents = map<nat, Option<nat>>

  predicate HasParent(parents: Parents, p: nat) {
    p in parents && parents[p].Some?
  }

  /** The ancestor `n` steps up. */
  function Climb(parents: Parents, p: nat, n: nat): Option<nat>
    decreases n
  {
    if n == 0 then Some(p)
    else if HasParent(parents, p) then Climb(parents, parents[p].value, n - 1)
    else None
  }

  ghost predicate Leads(parents: Parents, p: nat, q: nat) {
    exists n: nat :: Climb(parents, p, n) == Some(q)
  }

  lemma LeadsToSelf(parents: Parents, p: nat)
    ensures Leads(parents, p, p)
  {
    assert Climb(parents, p, 0) == Some(p);
  }

  lemma {:induction false} ClimbOn(parents: Parents, p: nat, n: nat, q: nat, m: nat)
    requires Climb(parents, p, n) == Some(q)
    ensures Climb(parents, p, n + m) == Climb(parents, q, m)
    decreases n
  {
    if n > 0 {
      ClimbOn(parents, parents[p].value, n - 1, q, m);
    }
  }

  lemma LeadsOn(parents: Parents, p: nat, q: nat, r: nat)
    requires Leads(parents, p, q) && Leads(parents, q, r)
    ensures Leads(parents, p, r)
  {
    var n :| Climb(parents, p, n) == Some(q);
    var m :| Climb(parents, q, m) == Some(r);
    ClimbOn(parents, p, n, q, m);
  }

  lemma LeadsToParent(parents: Parents, p: nat)
    requires HasParent(parents, p)
    ensures Leads(parents, p, parents[p].value)
  {
    assert Climb(parents, parents[p].value, 0) == Some(parents[p].value);
    assert Climb(parents, p, 1) == Some(parents[p].value);
  }

  /** No chain leaves a set that holds the parents of its members: neither a cycle nor a dangling end. */
  lemma {:induction false} Trapped(parents: Parents, s: set<nat>, p: nat, root: nat, n: nat)
    requires p in s && root !in s
    requires forall q <- s | HasParent(parents, q) :: parents[q].value in s
    ensures Climb(parents, p, n) != Some(root)
    decreases n
  {
    if n > 0 && HasParent(parents, p) {
      Trapped(parents, s, parents[p].value, root, n - 1);
    }
  }

  lemma NeverLeads(parents: Parents, s: set<nat>, p: nat, root: nat)
    requires p in s && root !in s
    requires forall q <- s | HasParent(parents, q) :: parents[q].value in s
    ensures !Leads(parents, p, root)
  {
    forall n: nat
      ensures Climb(parents, p, n) != Some(root)
    {
      Trapped(parents, s, p, root, n);
    }
  }

  /** `process_tree`: exactly the pids whose parent chain reaches the root, the root's own being of length 0.
      The snapshot's keys may come in any order. */
  method ProcessTree(root: nat, parents: Parents, keys: seq<nat>) returns (members: set<nat>)
    requires forall p :: p in keys <==> p in parents
    ensures forall p :: p in members <==> Leads(parents, p, root)
  {
    members := {root};
    LeadsToSelf(parents, root);
    for i := 0 to |keys|
      invariant root in members
      invariant forall p <- members :: Leads(parents, p, root)
      invariant forall k :: 0 <= k < i && Leads(parents, keys[k], root) ==> keys[k] in members
    {
      var chain := Chain(root, parents, keys[i], members);
      members := members + chain;
    }
    forall p | Leads(parents, p, root)
      ensures p in members
    {
      var n :| Climb(parents, p, n) == Some(root);
      if p in parents {
        var k :| 0 <= k < |keys| && keys[k] == p;
      }
    }
  }

  /** The chain from `pid` up to a member, if it gets there before it ends or repeats, or nothing. */
  method Chain(root: nat, parents: Parents, pid: nat, members: set<nat>) returns (visited: set<nat>)
    requires root in members && forall p <- members :: Leads(parents, p, root)
    ensures forall p <- visited :: Leads(parents, p, root)
    ensures Leads(parents, pid, root) ==> pid in members + visited
  {
    visited := {};
    var cursor := pid;
    LeadsToSelf(parents, pid);
    while cursor !in members
      invariant cursor == pid || pid in visited
      invariant forall p <- visited ::
          p !in members && HasParent(parents, p) && Leads(parents, p, cursor)
          && (parents[p].value in visited || parents[p].value == cursor)
      decreases parents.Keys - visited
    {
      if cursor in visited || !HasParent(parents, cursor) {
        NeverLeads(parents, visited + {cursor}, pid, root);
        return {};
      }
      ghost var was := cursor;
      LeadsToSelf(parents, cursor);
      visited := visited + {cursor};
      cursor := parents[cursor].value;
      LeadsToParent(parents, was);
      forall p <- visited
        ensures Leads(parents, p, cursor)
      {
        LeadsOn(parents, p, was, cursor);
      }
    }
    forall p <- visited
      ensures Leads(parents, p, root)
    {
      LeadsOn(parents, p, cursor, root);
    }
  }
}
