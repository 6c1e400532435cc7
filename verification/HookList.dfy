/** The singly linked list that holds the hooks of one event: head, tail and `next` pointers. */
module HookList {
  import opened Common

  class Item<T> {
    const data: T
    var next: Item?<T>
    ghost const owner: object

    constructor (data: T, next: Item?<T>, ghost owner: object)
      ensures this.data == data && this.next == next && this.owner == owner
    {
      this.data, this.next, this.owner := data, next, owner;
    }
  }

  /** `s` without its first `x`. */
  function RemoveFirst<T(==)>(s: seq<T>, x: T): (r: seq<T>)
    ensures x !in s ==> r == s
  {
    if s == [] then [] else if s[0] == x then s[1..] else [s[0]] + RemoveFirst(s[1..], x)
  }

  lemma RemoveAtNext<T>(s: seq<T>, k: nat)
    requires 0 < k < |s|
    ensures RemoveAt(s, k) == [s[0]] + RemoveAt(s[1..], k - 1)
  {
  }

  lemma {:induction false} RemoveFirstAt<T>(s: seq<T>, k: nat)
    requires k < |s| && forall j :: 0 <= j < k ==> s[j] != s[k]
    ensures RemoveFirst(s, s[k]) == RemoveAt(s, k)
  {
    if k > 0 {
      var t := s[1..];
      assert t[k - 1] == s[k] && forall j :: 0 <= j < k - 1 ==> t[j] == s[j + 1];
      RemoveFirstAt(t, k - 1);
      RemoveAtNext(s, k);
    }
  }

  ghost predicate Distinct<T(!new)>(s: seq<Item<T>>) {
    forall i, j :: 0 <= i < j < |s| ==> s[i] != s[j]
  }

  lemma DropDistinct<T(!new)>(s: seq<Item<T>>, k: nat)
    requires k < |s| && Distinct(s)
    ensures Distinct(RemoveAt(s, k)) && s[k] !in RemoveAt(s, k)
  {
  }

  /** What the items hold, in order. */
  ghost function Datas<T(!new)>(s: seq<Item<T>>): (r: seq<T>)
    ensures |r| == |s|
    ensures forall i {:trigger r[i]} :: 0 <= i < |s| ==> r[i] == s[i].data
  {
    seq(|s|, i requires 0 <= i < |s| => s[i].data)
  }

  lemma DropDatas<T(!new)>(s: seq<Item<T>>, k: nat)
    requires k < |s| && s[k].data !in Datas(s)[..k]
    ensures Datas(RemoveAt(s, k)) == RemoveFirst(Datas(s), s[k].data)
  {
    var ds := Datas(s);
    assert forall j :: 0 <= j < k ==> ds[..k][j] == ds[j];
    RemoveFirstAt(ds, k);
    assert Datas(RemoveAt(s, k)) == RemoveAt(Datas(s), k);
  }

  ghost function At<T(!new)>(ns: seq<Item<T>>, i: int): Item?<T> {
    if 0 <= i < |ns| then ns[i] else null
  }

  ghost predicate Linked<T(!new)>(ns: seq<Item<T>>)
    reads ns
  {
    forall i {:trigger ns[i].next} :: 0 <= i < |ns| ==> ns[i].next == At(ns, i + 1)
  }

  /** A list that refines the sequence `Contents()`; `nodes` are its items in order. */
  class List<T(==,!new)> {
    var head: Item?<T>
    var tail: Item?<T>
    ghost var nodes: seq<Item<T>>

    ghost predicate Valid()
      reads this, nodes
    {
      && Distinct(nodes) && Linked(nodes) && head == At(nodes, 0) && tail == At(nodes, |nodes| - 1)
      && forall n :: n in nodes ==> n.owner == this
    }

    ghost function Contents(): seq<T>
      reads this
    {
      Datas(nodes)
    }

    constructor ()
      ensures Valid() && nodes == []
    {
      head, tail, nodes := null, null, [];
    }

    method Insert(data: T)
      requires Valid()
      modifies this
      ensures Valid() && Contents() == [data] + old(Contents())
      ensures forall n :: n in nodes ==> n in old(nodes) || fresh(n)
    {
      var item := new Item(data, head, this);
      if tail == null {
        tail := item;
      }
      head := item;
      nodes := [item] + nodes;
    }

    method Append(data: T)
      requires Valid()
      modifies this, nodes
      ensures Valid() && Contents() == old(Contents()) + [data]
      ensures forall n :: n in nodes ==> n in old(nodes) || fresh(n)
    {
      var item := new Item(data, null, this);
      if head == null {
        head := item;
      } else {
        tail.next := item;
      }
      tail := item;
      ghost var longer := nodes + [item];
      assert Linked(longer);
      nodes := longer;
    }

    /** Unlinks the first item that holds `data`. */
    method Remove(data: T) returns (removed: bool)
      requires Valid()
      modifies this, nodes
      ensures Valid() && removed == (data in old(Contents()))
      ensures Contents() == RemoveFirst(old(Contents()), data)
      ensures forall n :: n in nodes ==> n in old(nodes)
    {
      if head == null {
        return false;
      }
      var cur, prev: Item?<T> := head, null;
      ghost var k := 0;
      while cur != null
        invariant 0 <= k <= |nodes| && cur == At(nodes, k) && prev == At(nodes, k - 1)
        invariant data !in Contents()[..k]
        decreases |nodes| - k
      {
        var next := cur.next;
        if cur.data == data {
          DropDatas(nodes, k);
          Unlink(prev, cur, next, k);
          return true;
        }
        prev := cur;
        cur := next;
        k := k + 1;
      }
      return false;
    }

    method Unlink(prev: Item?<T>, cur: Item<T>, next: Item?<T>, ghost k: nat)
      requires Valid() && k < |nodes| && cur == nodes[k] && prev == At(nodes, k - 1) && next == cur.next
      modifies this, nodes
      ensures Valid() && nodes == RemoveAt(old(nodes), k)
    {
      ghost var rest := RemoveAt(nodes, k);
      DropDistinct(nodes, k);
      if cur == head {
        head := next;
      } else {
        prev.next := next;
      }
      if cur == tail {
        tail := prev;
      }
      assert Linked(rest);
      nodes := rest;
    }

    /** Frees every item and leaves the list empty. */
    method Clear()
      requires Valid()
      modifies this
      ensures Valid() && nodes == []
    {
      var cur := head;
      ghost var freed := 0;
      while cur != null
        invariant 0 <= freed <= |nodes| && cur == At(nodes, freed)
        decreases |nodes| - freed
      {
        cur := cur.next;
        freed := freed + 1;
      }
      head, tail := null, null;
      nodes := [];
    }
  }
}
