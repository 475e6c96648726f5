/** UI/main.cpp: the linked list of discovery clients, changed in place. */
module Clients {

  class RemoteClient {
    const sockFd: int
    const groupAddr: nat
    var next: RemoteClient?

    constructor (sockFd: int, groupAddr: nat)
      ensures this.sockFd == sockFd && this.groupAddr == groupAddr && next == null
    {
      this.sockFd, this.groupAddr, next := sockFd, groupAddr, null;
    }
  }

  // ----- what the list means -----

  type Entry = (int, nat)   // a descriptor and its group address

  /** Without the first entry of the descriptor, if it has one. */
  function RemoveFirst(s: seq<Entry>, fd: int): (r: seq<Entry>)
    ensures Has(s, fd) ==> |r| + 1 == |s|
    ensures !Has(s, fd) ==> r == s
  {
    if s == [] then []
    else if s[0].0 == fd then s[1..]
    else
      assert Has(s, fd) <==> Has(s[1..], fd) by {
        assert forall i | 0 <= i < |s[1..]| :: s[1..][i] == s[i + 1];
        assert forall i | 0 < i < |s| :: s[i] == s[1..][i - 1];
      }
      [s[0]] + RemoveFirst(s[1..], fd)
  }

  predicate Has(s: seq<Entry>, fd: int) {
    exists i | 0 <= i < |s| :: s[i].0 == fd
  }

  lemma {:induction false} RemoveFirstAt(s: seq<Entry>, fd: int, k: nat)
    requires k < |s| && s[k].0 == fd && forall i | 0 <= i < k :: s[i].0 != fd
    ensures RemoveFirst(s, fd) == s[..k] + s[k + 1..]
  {
    if 0 < k {
      RemoveFirstAt(s[1..], fd, k - 1);
      assert s[..k] == [s[0]] + s[1..][..k - 1];
      assert s[1..][k..] == s[k + 1..];
    }
  }

  /** Adding a descriptor the list does not hold and removing it again changes nothing. */
  lemma AddThenRemove(s: seq<Entry>, fd: int, addr: nat)
    requires !Has(s, fd)
    ensures RemoveFirst(s + [(fd, addr)], fd) == s
  {
    RemoveFirstAt(s + [(fd, addr)], fd, |s|);
  }

  datatype Op = Add(fd: int, addr: nat) | Remove(fd: int)

  function Apply(s: seq<Entry>, op: Op): seq<Entry> {
    match op
    case Add(fd, addr) => s + [(fd, addr)]
    case Remove(fd) => RemoveFirst(s, fd)
  }

  function ApplyAll(s: seq<Entry>, ops: seq<Op>): seq<Entry>
    decreases |ops|
  {
    if ops == [] then s else ApplyAll(Apply(s, ops[0]), ops[1..])
  }

  function OnlyOne(e: Entry, fd: int): seq<Entry> {
    if e.0 == fd then [e] else []
  }

  /** The entries of one descriptor. */
  function Only(s: seq<Entry>, fd: int): seq<Entry> {
    if s == [] then [] else OnlyOne(s[0], fd) + Only(s[1..], fd)
  }

  /** The operations on one descriptor. */
  function Concerning(ops: seq<Op>, fd: int): seq<Op> {
    if ops == [] then [] else (if ops[0].fd == fd then [ops[0]] else []) + Concerning(ops[1..], fd)
  }

  lemma OnlyCons(e: Entry, s: seq<Entry>, fd: int)
    ensures Only([e] + s, fd) == OnlyOne(e, fd) + Only(s, fd)
  {
    assert ([e] + s)[1..] == s;
  }

  lemma {:induction false} OnlyAppend(xs: seq<Entry>, ys: seq<Entry>, fd: int)
    ensures Only(xs + ys, fd) == Only(xs, fd) + Only(ys, fd)
  {
    hide OnlyOne;
    if xs == [] {
      assert xs + ys == ys;
    } else {
      assert xs + ys == [xs[0]] + (xs[1..] + ys);
      OnlyCons(xs[0], xs[1..] + ys, fd);
      OnlyAppend(xs[1..], ys, fd);
    }
  }

  lemma RemoveOnlyHead(e: Entry, s: seq<Entry>, fd: int)
    ensures RemoveFirst(OnlyOne(e, fd) + s, fd) == if e.0 == fd then s else RemoveFirst(s, fd)
  {
    assert e.0 == fd ==> ([e] + s)[1..] == s;
    assert [] + s == s;
  }

  lemma {:induction false} OnlyRemove(s: seq<Entry>, fd: int, other: int)
    ensures Only(RemoveFirst(s, fd), other) == if fd == other then RemoveFirst(Only(s, other), other) else Only(s, other)
  {
    hide OnlyOne;
    if s != [] {
      var e, rest := s[0], s[1..];
      RemoveOnlyHead(e, Only(rest, other), other);
      if e.0 == fd {
        OtherHead(e, Only(rest, other), other);
      } else {
        OnlyRemove(rest, fd, other);
        OnlyCons(e, RemoveFirst(rest, fd), other);
        OtherHead(e, Only(rest, other), other);
        OtherHead(e, RemoveFirst(Only(rest, other), other), other);
      }
    }
  }

  lemma OtherHead(e: Entry, s: seq<Entry>, fd: int)
    ensures e.0 != fd ==> OnlyOne(e, fd) + s == s
  {
  }

  lemma ApplyFirst(s: seq<Entry>, op: Op, ops: seq<Op>)
    ensures ApplyAll(s, [op] + ops) == ApplyAll(Apply(s, op), ops)
  {
    assert ([op] + ops)[1..] == ops;
  }

  /**
  In every history the entries of a descriptor, in their order, are decided by the additions
  and removals of that descriptor alone.
  */
  lemma {:induction false} DescriptorsAreIndependent(s: seq<Entry>, ops: seq<Op>, fd: int)
    ensures Only(ApplyAll(s, ops), fd) == ApplyAll(Only(s, fd), Concerning(ops, fd))
    decreases |ops|
  {
    hide OnlyOne, RemoveFirst;
    if ops != [] {
      var op, rest := ops[0], ops[1..];
      DescriptorsAreIndependent(Apply(s, op), rest, fd);
      OneOperation(s, op, fd);
      ApplyFirst(Only(s, fd), op, Concerning(rest, fd));
      assert op.fd != fd ==> [] + Concerning(rest, fd) == Concerning(rest, fd);
    }
  }

  lemma OneOperation(s: seq<Entry>, op: Op, fd: int)
    ensures Only(Apply(s, op), fd) == if op.fd == fd then Apply(Only(s, fd), op) else Only(s, fd)
  {
    match op
    case Add(g, addr) =>
      OnlyAppend(s, [(g, addr)], fd);
      OnlyCons((g, addr), [], fd);
      assert [(g, addr)] + [] == [(g, addr)];
    case Remove(g) =>
      OnlyRemove(s, g, fd);
  }

  // ----- the list in memory -----

  class Context {
    var remoteClients: RemoteClient?
    ghost var nodes: seq<RemoteClient>

    /** `nodes` are linked in order from the head, ended by null, and all different. */
    ghost predicate Valid()
      reads this, nodes
    {
      && remoteClients == (if nodes == [] then null else nodes[0])
      && (forall i {:trigger nodes[i].next} | 0 <= i < |nodes| ::
            nodes[i].next == if i + 1 < |nodes| then nodes[i + 1] else null)
      && (forall i, j | 0 <= i < j < |nodes| :: nodes[i] != nodes[j])
    }

    ghost function Contents(): seq<Entry>
      reads this
    {
      seq(|nodes|, i requires 0 <= i < |nodes| reads this => (nodes[i].sockFd, nodes[i].groupAddr))
    }

    constructor ()
      ensures Valid() && Contents() == []
    {
      remoteClients, nodes := null, [];
    }

    /** `add_client` */
    method AddClient(sockFd: int, groupAddr: nat) returns (rc: RemoteClient)
      requires Valid()
      modifies this, nodes
      ensures Valid() && fresh(rc) && nodes == old(nodes) + [rc]
      ensures Contents() == old(Contents()) + [(sockFd, groupAddr)]
    {
      rc := new RemoteClient(sockFd, groupAddr);
      if remoteClients == null {
        remoteClients := rc;
      } else {
        var i := remoteClients;
        ghost var k := 0;
        while i.next != null
          invariant 0 <= k < |nodes| && i == nodes[k]
          decreases |nodes| - k
        {
          assert nodes[k].next == if k + 1 < |nodes| then nodes[k + 1] else null;
          i := i.next;
          k := k + 1;
        }
        assert nodes[k].next == null;
        i.next := rc;
      }
      nodes := nodes + [rc];
    }

    /** `remove_client`: 0 when an entry was removed, else -1. */
    method RemoveClient(sockFd: int) returns (result: int)
      requires Valid()
      modifies this, nodes
      ensures Valid() && result == if Has(old(Contents()), sockFd) then 0 else -1
      ensures Contents() == RemoveFirst(old(Contents()), sockFd)
      ensures result == -1 ==> nodes == old(nodes) && unchanged(this)
    {
      if remoteClients == null {
        return -1;
      }
      ghost var before := Contents();
      var last: RemoteClient?, i := null, remoteClients;
      ghost var k := 0;
      while i != null
        invariant 0 <= k <= |nodes| && i == (if k < |nodes| then nodes[k] else null)
        invariant last == if k == 0 then null else nodes[k - 1]
        invariant forall j | 0 <= j < k :: before[j].0 != sockFd
        decreases |nodes| - k
      {
        if i.sockFd == sockFd {
          RemoveFirstAt(before, sockFd, k);
          assert before[k].0 == sockFd;
          Unlink(last, i, k);
          return 0;
        }
        assert nodes[k].next == if k + 1 < |nodes| then nodes[k + 1] else null;
        last, i := i, i.next;
        k := k + 1;
      }
      return -1;
    }

    /** Takes the node at `k` out, which `last` precedes. */
    method Unlink(last: RemoteClient?, i: RemoteClient, ghost k: nat)
      requires Valid() && k < |nodes| && i == nodes[k] && last == if k == 0 then null else nodes[k - 1]
      modifies this, nodes
      ensures Valid() && nodes == old(nodes)[..k] + old(nodes)[k + 1..]
      ensures Contents() == old(Contents())[..k] + old(Contents())[k + 1..]
    {
      assert nodes[k].next == if k + 1 < |nodes| then nodes[k + 1] else null;
      if last == null {
        remoteClients := i.next;
      } else {
        last.next := i.next;
      }
      nodes := nodes[..k] + nodes[k + 1..];
    }
  }
}
