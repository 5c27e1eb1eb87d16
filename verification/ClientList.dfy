/** The linked list of connected clients. */
module ClientList {

  import opened Sequences

  class Client {
    var next: Client?
  }

  /** Clients chained from root through their next fields. */
  class Clients {
    var root: Client?
    ghost var all: seq<Client>

    ghost predicate Valid()
      reads this, all
    {
      Distinct(all) && root == At(0) && forall i :: 0 <= i < |all| ==> all[i].next == At(i + 1)
    }

    ghost function At(i: nat): Client?
      reads this
    {
      if i < |all| then all[i] else null
    }

    constructor ()
      ensures Valid() && all == []
    {
      root, all := null, [];
    }

    /** Appends a client that is not in the list yet. */
    method Append(client: Client)
      requires Valid() && client !in all && client.next == null
      modifies this, all
      ensures Valid() && all == old(all) + [client]
    {
      ghost var s := all;
      if root == null {
        root := client;
      } else {
        var cur := root;
        ghost var i: nat := 0;
        while cur.next != null
          invariant i < |all| && cur == all[i]
          invariant Valid() && all == s
          decreases |all| - i
        {
          cur := cur.next;
          i := i + 1;
        }
        assert i == |all| - 1;
        cur.next := client;
      }
      all := s + [client];
    }

    /** Walks to a client; past the end if it is not there. */
    method Seek(client: Client) returns (prev: Client?, cur: Client?, ghost i: nat)
      requires Valid()
      ensures i == IndexOf(all, client) && cur == At(i)
      ensures prev == if i == 0 then null else At(i - 1)
    {
      cur, prev, i := root, null, 0;
      while cur != null && cur != client
        invariant i <= |all| && cur == At(i)
        invariant prev == if i == 0 then null else At(i - 1)
        invariant forall j :: 0 <= j < i ==> all[j] != client
        decreases |all| - i
      {
        prev := cur;
        cur := cur.next;
        i := i + 1;
      }
    }

    /** The client behind the j-th of s. */
    static ghost function After(s: seq<Client>, j: nat): Client? {
      if j + 1 < |s| then s[j + 1] else null
    }

    /** With the i-th client of s out and its neighbours joined, the list is in order. */
    lemma Chained(s: seq<Client>, i: nat)
      requires i < |s| && all == s[..i] + s[i + 1..]
      requires forall j: nat :: j < |s| && j != i && j + 1 != i ==> s[j].next == After(s, j)
      requires i > 0 ==> s[i - 1].next == After(s, i)
      ensures forall k :: 0 <= k < |all| ==> all[k].next == At(k + 1)
    {
      forall k | 0 <= k < |all|
        ensures all[k].next == At(k + 1)
      {
        var j: nat := if k < i then k else k + 1;
        assert all[k] == s[j];
        assert At(k + 1) == if k + 1 == i then After(s, i) else After(s, j);
      }
    }

    /** Unlinks a client; a client that is not in the list changes nothing. */
    method Detach(client: Client)
      requires Valid()
      modifies this, all
      ensures Valid() && all == Detached(old(all), client)
      ensures client.next == old(client.next)
    {
      hide IndexOf, Distinct, Detached;
      ghost var s := all;
      assert forall j, k :: 0 <= j < k < |s| ==> s[j] != s[k] by {
        DistinctMeans(s);
      }
      var prev, cur, i := Seek(client);
      DetachedIs(s, client);
      if cur == null {
        return;
      }
      DetachedIsExact(s, client);
      all := s[..i] + s[i + 1..];
      if prev == null {
        root := root.next;
      } else {
        prev.next := cur.next;
      }
      Chained(s, i);
    }
  }
}
