/** Reconciling an HTTP worker's listeners with the descriptors received on a
    reload, and giving each its listener id. */
module Listeners {
  import opened Basics
  import opened DescriptorPassing

  datatype Context = Context(fd: int, masterFd: int, listenerId: int, listening: bool)

  function Masters(s: seq<FdPair>): seq<int> {
    seq(|s|, i requires 0 <= i < |s| => s[i].masterFd)
  }

  function ContextMasters(s: seq<Context>): seq<int> {
    seq(|s|, i requires 0 <= i < |s| => s[i].masterFd)
  }

  /** A listener is created on every descriptor but -1. */
  function NewContext(p: FdPair): Context {
    Context(p.fd, p.masterFd, 0, p.fd != -1)
  }

  function NewContexts(s: seq<FdPair>): seq<Context> {
    seq(|s|, i requires 0 <= i < |s| => NewContext(s[i]))
  }

  lemma EraseMultiset<T>(s: seq<T>, j: nat)
    requires j < |s|
    ensures multiset(s) == multiset(Erase(s, j)) + multiset{s[j]}
  {
    assert s == s[..j] + [s[j]] + s[j + 1..];
  }

  lemma ErasePairs(s: seq<FdPair>, j: nat)
    requires j < |s|
    ensures multiset(FdsOf(s)) == multiset(FdsOf(Erase(s, j))) + multiset{s[j].fd}
    ensures multiset(Masters(s)) == multiset(Masters(Erase(s, j))) + multiset{s[j].masterFd}
  {
    EraseMultiset(FdsOf(s), j);
    EraseMultiset(Masters(s), j);
    assert FdsOf(Erase(s, j)) == Erase(FdsOf(s), j);
    assert Masters(Erase(s, j)) == Erase(Masters(s), j);
  }

  /** The outcome of going through the old listeners: some are kept, the others
      disposed of; a kept one uses up a received descriptor, which is closed. */
  ghost predicate Matched(before: seq<Context>, received: seq<FdPair>, kept: seq<Context>, disposed: seq<Context>,
                          closed: seq<int>, left: seq<FdPair>) {
    && multiset(before) == multiset(kept) + multiset(disposed)
    && multiset(ContextMasters(kept)) + multiset(Masters(left)) == multiset(Masters(received))
    && multiset(closed) + multiset(FdsOf(left)) == multiset(FdsOf(received))
    && |closed| == |kept|
    // what is disposed of was not received again, beyond the listeners kept
    && (forall c | c in disposed :: c.masterFd !in Masters(left))
  }

  /** Which received descriptors the kept listeners used up: one each, of the listener's
      own master descriptor, and these are the ones closed. */
  ghost predicate UsedUp(received: seq<FdPair>, kept: seq<Context>, used: seq<FdPair>, closed: seq<int>, left: seq<FdPair>) {
    && closed == FdsOf(used) && Masters(used) == ContextMasters(kept)
    && multiset(used) + multiset(left) == multiset(received)
  }

  lemma UseOne(received: seq<FdPair>, kept: seq<Context>, used: seq<FdPair>, closed: seq<int>, left: seq<FdPair>, c: Context, j: nat)
    requires UsedUp(received, kept, used, closed, left) && j < |left| && left[j].masterFd == c.masterFd
    ensures UsedUp(received, kept + [c], used + [left[j]], closed + [left[j].fd], Erase(left, j))
  {
    EraseMultiset(left, j);
    assert FdsOf(used + [left[j]]) == FdsOf(used) + [left[j].fd];
    assert Masters(used + [left[j]]) == Masters(used) + [left[j].masterFd];
    assert ContextMasters(kept + [c]) == ContextMasters(kept) + [c.masterFd];
  }

  lemma MatchOne(before: seq<Context>, received: seq<FdPair>, kept: seq<Context>, disposed: seq<Context>,
                 closed: seq<int>, left: seq<FdPair>, c: Context, j: nat)
    requires Matched(before, received, kept, disposed, closed, left) && j < |left| && left[j].masterFd == c.masterFd
    ensures Matched(before + [c], received, kept + [c], disposed, closed + [left[j].fd], Erase(left, j))
  {
    ErasePairs(left, j);
    assert ContextMasters(kept + [c]) == ContextMasters(kept) + [c.masterFd];
    forall m | m in Masters(Erase(left, j)) ensures m in Masters(left) {
      assert m in multiset(Masters(Erase(left, j)));
      assert m in multiset(Masters(left));
    }
  }

  lemma DisposeOne(before: seq<Context>, received: seq<FdPair>, kept: seq<Context>, disposed: seq<Context>,
                   closed: seq<int>, left: seq<FdPair>, c: Context)
    requires Matched(before, received, kept, disposed, closed, left)
    requires forall j | 0 <= j < |left| :: left[j].masterFd != c.masterFd
    ensures Matched(before + [c], received, kept, disposed + [c], closed, left)
  {
  }

  /** Every descriptor of a batch is accounted for: one listener context per
      master descriptor, and each received descriptor either closed or owned by
      exactly one of the new contexts. */
  ghost predicate Reconciled(before: seq<Context>, received: seq<FdPair>, after: seq<Context>,
                             kept: seq<Context>, disposed: seq<Context>, closed: seq<int>, added: seq<FdPair>) {
    && after == kept + NewContexts(added)
    && multiset(before) == multiset(kept) + multiset(disposed)
    && multiset(ContextMasters(after)) == multiset(Masters(received))
    && multiset(closed) + multiset(FdsOf(added)) == multiset(FdsOf(received))
    && (forall c | c in disposed :: c.masterFd !in Masters(added))
  }

  lemma OpenAll(before: seq<Context>, received: seq<FdPair>, kept: seq<Context>, disposed: seq<Context>,
                closed: seq<int>, left: seq<FdPair>)
    requires Matched(before, received, kept, disposed, closed, left)
    ensures Reconciled(before, received, kept + NewContexts(left), kept, disposed, closed, left)
  {
    assert ContextMasters(kept + NewContexts(left)) == ContextMasters(kept) + Masters(left);
  }

  lemma DistinctByMultiset<T>(a: seq<T>, b: seq<T>)
    requires Distinct(a) && multiset(a) == multiset(b)
    ensures Distinct(b)
  {
    forall i, j | 0 <= i < j < |b| ensures b[i] != b[j] {
      if b[i] == b[j] {
        assert b == b[..j] + [b[j]] + b[j + 1..];
        assert b[..j][i] in b[..j];
        assert multiset(b)[b[j]] >= 2;
        DistinctCount(a, b[j]);
      }
    }
  }

  /** Over distinct master descriptors, a listener survives a reload exactly when
      its master descriptor was received again. */
  lemma KeptIffReceived(before: seq<Context>, received: seq<FdPair>, after: seq<Context>, kept: seq<Context>,
                        disposed: seq<Context>, closed: seq<int>, added: seq<FdPair>, c: Context)
    requires Reconciled(before, received, after, kept, disposed, closed, added)
    requires Distinct(ContextMasters(before)) && c in before
    ensures c in kept <==> c.masterFd in Masters(received)
  {
    assert ContextMasters(after) == ContextMasters(kept) + Masters(added);
    assert c in multiset(before);
    if c in kept {
      var i :| 0 <= i < |kept| && kept[i] == c;
      assert ContextMasters(kept)[i] in multiset(ContextMasters(after));
    } else if c.masterFd in Masters(received) {
      assert c.masterFd in multiset(ContextMasters(after)) && c in disposed;
      var i :| 0 <= i < |ContextMasters(kept)| && ContextMasters(kept)[i] == c.masterFd;
      assert kept[i] in multiset(before);
      SameMaster(before, kept[i], c);
    }
  }

  /** Over distinct master descriptors, the descriptor received for a kept listener is closed. */
  lemma ReceivedAgainIsClosed(received: seq<FdPair>, kept: seq<Context>, used: seq<FdPair>, closed: seq<int>, left: seq<FdPair>,
                              c: Context, p: FdPair)
    requires UsedUp(received, kept, used, closed, left) && Distinct(Masters(received))
    requires c in kept && p in received && p.masterFd == c.masterFd
    ensures p.fd in closed
  {
    var i :| 0 <= i < |kept| && kept[i] == c;
    assert Masters(used)[i] == ContextMasters(kept)[i] == used[i].masterFd;
    assert used[i] in multiset(received);
    var a :| 0 <= a < |received| && received[a] == used[i];
    var b :| 0 <= b < |received| && received[b] == p;
    assert Masters(received)[a] == Masters(received)[b];
    assert FdsOf(used)[i] == p.fd;
  }

  /** The listener is there with its own socket, whatever its id. */
  ghost predicate Survives(c: Context, contexts: seq<Context>) {
    exists i :: 0 <= i < |contexts| && contexts[i].(listenerId := 0) == c.(listenerId := 0)
  }

  /** A descriptor was received for the listener's own number in the master. */
  ghost predicate ReceivedAgain(c: Context, received: seq<FdPair>) {
    exists i :: 0 <= i < |received| && received[i].masterFd == c.masterFd
  }

  lemma ReceivedAgainIff(c: Context, received: seq<FdPair>)
    ensures ReceivedAgain(c, received) <==> c.masterFd in Masters(received)
  {
    if i :| 0 <= i < |received| && received[i].masterFd == c.masterFd {
      assert Masters(received)[i] == c.masterFd;
    }
  }

  /** Over distinct master descriptors, an old listener is still there, with its own
      descriptor, exactly when its master descriptor was received again, and then the
      descriptor received for it is closed. */
  lemma SurvivesIffReceived(before: seq<Context>, received: seq<FdPair>, after: seq<Context>, kept: seq<Context>,
                            disposed: seq<Context>, used: seq<FdPair>, closed: seq<int>, added: seq<FdPair>,
                            final: seq<Context>, c: Context)
    requires Reconciled(before, received, after, kept, disposed, closed, added) && UsedUp(received, kept, used, closed, added)
    requires SameButIds(final, after) && Distinct(ContextMasters(before)) && Distinct(Masters(received)) && c in before
    ensures Survives(c, final) <==> ReceivedAgain(c, received)
    ensures forall p | p in received && p.masterFd == c.masterFd :: p.fd in closed
  {
    ReceivedAgainIff(c, received);
    KeptIffReceived(before, received, after, kept, disposed, closed, added, c);
    if c in kept {
      var i :| 0 <= i < |kept| && kept[i] == c;
      assert final[i].(listenerId := 0) == after[i].(listenerId := 0);
    }
    if i :| 0 <= i < |final| && final[i].(listenerId := 0) == c.(listenerId := 0) {
      assert ContextMasters(after)[i] in multiset(ContextMasters(after));
      assert c.masterFd in multiset(Masters(received));
    }
    forall p | p in received && p.masterFd == c.masterFd ensures p.fd in closed {
      var a :| 0 <= a < |received| && received[a] == p;
      assert Masters(received)[a] == c.masterFd;
      ReceivedAgainIsClosed(received, kept, used, closed, added, c, p);
    }
  }

  lemma SameMaster(before: seq<Context>, a: Context, b: Context)
    requires Distinct(ContextMasters(before)) && a in before && b in before && a.masterFd == b.masterFd
    ensures a == b
  {
    var i :| 0 <= i < |before| && before[i] == a;
    var j :| 0 <= j < |before| && before[j] == b;
    assert ContextMasters(before)[i] == ContextMasters(before)[j];
  }

  lemma SomeContext(contexts: seq<Context>, fds: seq<FdPair>, g: nat)
    requires g < |fds| && multiset(ContextMasters(contexts)) == multiset(Masters(fds))
    ensures exists c :: 0 <= c < |contexts| && contexts[c].masterFd == fds[g].masterFd
  {
    var m, cm := Masters(fds), ContextMasters(contexts);
    assert m[g] in multiset(cm);
    var c :| 0 <= c < |cm| && cm[c] == m[g];
    assert contexts[c].masterFd == fds[g].masterFd;
  }

  // With distinct master descriptors there is exactly one context for each.
  lemma OneContext(contexts: seq<Context>, fds: seq<FdPair>)
    requires Distinct(Masters(fds)) && multiset(ContextMasters(contexts)) == multiset(Masters(fds))
    ensures forall i, j | 0 <= i < j < |contexts| :: contexts[i].masterFd != contexts[j].masterFd
  {
    var cm := ContextMasters(contexts);
    DistinctByMultiset(Masters(fds), cm);
    forall i, j | 0 <= i < j < |contexts| ensures contexts[i].masterFd != contexts[j].masterFd {
      assert cm[i] != cm[j];
    }
  }

  /** How many times the id has changed up to the n-th. */
  function Group(ids: seq<int>, n: nat): nat
    requires n < |ids|
  {
    if n == 0 then 0 else Group(ids, n - 1) + (if ids[n] != ids[n - 1] then 1 else 0)
  }

  lemma {:induction false} GroupsRise(ids: seq<int>, m: nat, n: nat)
    requires m <= n < |ids|
    ensures Group(ids, m) <= Group(ids, n)
    ensures Group(ids, m) == Group(ids, n) ==> ids[m] == ids[n]
  {
    if m < n {
      GroupsRise(ids, m, n - 1);
    }
  }

  ghost predicate Ascending(ids: seq<int>) {
    forall i, j | 0 <= i < j < |ids| :: ids[i] < ids[j]
  }

  /** In strictly ascending ids each has its own place. */
  lemma {:induction false} AscendingGroups(ids: seq<int>, n: nat)
    requires n < |ids| && Ascending(ids)
    ensures Group(ids, n) == n
  {
    if n > 0 {
      AscendingGroups(ids, n - 1);
    }
  }

  ghost predicate IdSet(c: Context, fds: seq<FdPair>, ids: seq<int>, k: nat)
    requires k < |ids|
  {
    Group(ids, k) < |fds| && c.masterFd == fds[Group(ids, k)].masterFd ==> c.listenerId == ids[k]
  }

  /** The contexts of the descriptors the first n ids stand for have these ids. */
  ghost predicate IdsSet(contexts: seq<Context>, fds: seq<FdPair>, ids: seq<int>, n: nat)
    requires n <= |ids|
  {
    forall k, i {:trigger IdSet(contexts[i], fds, ids, k)} | 0 <= k < n && 0 <= i < |contexts| ::
      IdSet(contexts[i], fds, ids, k)
  }

  ghost predicate SameButIds(a: seq<Context>, b: seq<Context>) {
    |a| == |b| && forall i | 0 <= i < |a| :: a[i].(listenerId := 0) == b[i].(listenerId := 0)
  }

  lemma SetOneId(contexts: seq<Context>, fds: seq<FdPair>, ids: seq<int>, n: nat, c: nat)
    requires n < |ids| && Group(ids, n) < |fds| && c < |contexts| && IdsSet(contexts, fds, ids, n)
    requires Distinct(Masters(fds)) && contexts[c].masterFd == fds[Group(ids, n)].masterFd
    requires forall i, j | 0 <= i < j < |contexts| :: contexts[i].masterFd != contexts[j].masterFd
    ensures IdsSet(contexts[c := contexts[c].(listenerId := ids[n])], fds, ids, n + 1)
  {
    var next := contexts[c := contexts[c].(listenerId := ids[n])];
    forall k, i | 0 <= k < n + 1 && 0 <= i < |next| ensures IdSet(next[i], fds, ids, k) {
      if i != c && k < n {
        assert IdSet(contexts[i], fds, ids, k);
      } else if i == c {
        GroupsRise(ids, k, n);
        assert Group(ids, k) < Group(ids, n) ==> Masters(fds)[Group(ids, k)] != Masters(fds)[Group(ids, n)];
      }
    }
  }

  /** The last contexts are those of the given descriptors. */
  ghost predicate OwnedByLast(contexts: seq<Context>, added: seq<FdPair>) {
    && |added| <= |contexts|
    && forall k | 0 <= k < |added| ::
         var c := contexts[|contexts| - |added| + k];
         c.fd == added[k].fd && c.masterFd == added[k].masterFd && (c.listening <==> c.fd != -1)
  }

  class Worker {
    var contexts: seq<Context>

    constructor ()
      ensures contexts == []
    {
      contexts := [];
    }

    /** Looks for a received descriptor with the same number in the master. */
    static method FindMaster(fds: seq<FdPair>, masterFd: int) returns (j: nat)
      ensures j <= |fds|
      ensures j < |fds| ==> fds[j].masterFd == masterFd
      ensures forall k | 0 <= k < j :: fds[k].masterFd != masterFd
    {
      j := 0;
      while j < |fds| && fds[j].masterFd != masterFd
        invariant j <= |fds| && forall k | 0 <= k < j :: fds[k].masterFd != masterFd
      {
        j := j + 1;
      }
    }

    /** Goes through the listeners: the ones received again stay, the others go. */
    method KeepOrDispose(received: seq<FdPair>)
      returns (newFds: seq<FdPair>, closed: seq<int>, ghost disposed: seq<Context>, ghost used: seq<FdPair>)
      modifies this
      ensures Matched(old(contexts), received, contexts, disposed, closed, newFds)
      ensures UsedUp(received, contexts, used, closed, newFds)
    {
      newFds, closed, disposed, used := received, [], [], [];
      ghost var before, seen, kept, rest := contexts, [], [], contexts;
      var i := 0;
      while i < |contexts|
        invariant i == |kept| && Passed(before, contexts, seen, kept, rest)
        invariant Matched(seen, received, kept, disposed, closed, newFds) && UsedUp(received, kept, used, closed, newFds)
        decreases |rest|
      {
        PassOn(before, contexts, seen, kept, rest);
        var c := contexts[i];
        var j := FindMaster(newFds, c.masterFd);
        if j < |newFds| {
          MatchOne(seen, received, kept, disposed, closed, newFds, c, j);
          UseOne(received, kept, used, closed, newFds, c, j);
          used := used + [newFds[j]];
          closed := closed + [newFds[j].fd];
          newFds := Erase(newFds, j);
          i := i + 1;
          kept := kept + [c];
        } else {
          DisposeOne(seen, received, kept, disposed, closed, newFds, c);
          disposed := disposed + [c];
          contexts := Erase(contexts, i);
        }
        seen, rest := seen + [c], rest[1..];
      }
      assert kept == contexts && seen == before;
    }

    /** Keeps the listeners whose descriptors were received again, disposes of the
        others and opens one for each descriptor that is new. */
    method Reconcile(received: seq<FdPair>)
      returns (closed: seq<int>, ghost kept: seq<Context>, ghost disposed: seq<Context>, ghost used: seq<FdPair>,
               ghost added: seq<FdPair>)
      modifies this
      ensures Reconciled(old(contexts), received, contexts, kept, disposed, closed, added)
      ensures UsedUp(received, kept, used, closed, added)
    {
      var newFds;
      newFds, closed, disposed, used := KeepOrDispose(received);
      kept, added := contexts, newFds;
      OpenAll(old(contexts), received, kept, disposed, closed, newFds);
      for k := 0 to |newFds|
        invariant contexts == kept + NewContexts(newFds[..k])
      {
        assert NewContexts(newFds[..k + 1]) == NewContexts(newFds[..k]) + [NewContext(newFds[k])];
        contexts := contexts + [Context(newFds[k].fd, newFds[k].masterFd, 0, newFds[k].fd != -1)];
      }
      assert newFds[..|newFds|] == newFds;
    }

    /** Hands out the ids in order, moving to the next received descriptor whenever
        the id changes. As in the two assertions of the loop, there is a descriptor for
        every id and a listener for every descriptor. */
    method AssignIds(fds: seq<FdPair>, ids: seq<int>)
      requires ids != [] ==> ids[0] != 0 && Group(ids, |ids| - 1) < |fds|
      requires multiset(ContextMasters(contexts)) == multiset(Masters(fds))
      modifies this
      ensures SameButIds(contexts, old(contexts))
      ensures Distinct(Masters(fds)) ==> IdsSet(contexts, fds, ids, |ids|)
    {
      ghost var before := contexts;
      var lastId, index := 0, -1;
      for n := 0 to |ids|
        invariant n == 0 ==> index == -1 && lastId == 0
        invariant n > 0 ==> index == Group(ids, n - 1) && lastId == ids[n - 1]
        invariant SameButIds(contexts, before) && (Distinct(Masters(fds)) ==> IdsSet(contexts, fds, ids, n))
      {
        if lastId != ids[n] {
          lastId := ids[n];
          index := index + 1;
        }
        GroupsRise(ids, n, |ids| - 1);
        var fd := fds[index];
        assert ContextMasters(contexts) == ContextMasters(before);
        SomeContext(contexts, fds, index);
        var c := 0;
        while contexts[c].masterFd != fd.masterFd
          invariant c < |contexts| && forall k | 0 <= k < c :: contexts[k].masterFd != fd.masterFd
          decreases |contexts| - c
        {
          c := c + 1;
        }
        if Distinct(Masters(fds)) {
          OneContext(contexts, fds);
          SetOneId(contexts, fds, ids, n, c);
        }
        contexts := contexts[c := contexts[c].(listenerId := ids[n])];
      }
    }

    /** A whole reload. An empty batch, which is what a failed transfer gives,
        leaves the listeners alone. */
    method Reload(received: seq<FdPair>, ids: seq<int>)
      returns (closed: seq<int>, ghost reconciled: seq<Context>, ghost kept: seq<Context>, ghost disposed: seq<Context>,
               ghost added: seq<FdPair>)
      requires received != [] && ids != [] ==> ids[0] != 0 && Group(ids, |ids| - 1) < |received|
      modifies this
      ensures received == [] ==> contexts == old(contexts) && closed == []
      // every received descriptor is closed or owned by one of the last listeners
      ensures multiset(closed) + multiset(FdsOf(added)) == multiset(FdsOf(received)) && OwnedByLast(contexts, added)
      ensures received != [] ==> multiset(ContextMasters(contexts)) == multiset(Masters(received))
      // up to the ids, what the old listeners and the received descriptors come to
      ensures received != [] ==>
                Reconciled(old(contexts), received, reconciled, kept, disposed, closed, added) && SameButIds(contexts, reconciled)
      ensures received != [] && Distinct(ContextMasters(old(contexts))) && Distinct(Masters(received)) ==>
                forall c | c in old(contexts) ::
                  && (Survives(c, contexts) <==> ReceivedAgain(c, received))
                  && forall p | p in received && p.masterFd == c.masterFd :: p.fd in closed
      ensures Distinct(Masters(received)) && Ascending(ids) ==>
                forall k, c | 0 <= k < |ids| && k < |received| && 0 <= c < |contexts|
                              && contexts[c].masterFd == received[k].masterFd ::
                  contexts[c].listenerId == ids[k]
    {
      if received == [] {
        return [], contexts, contexts, [], [];
      }
      ghost var used;
      closed, kept, disposed, used, added := Reconcile(received);
      reconciled := contexts;
      AssignIds(received, ids);
      assert ContextMasters(contexts) == ContextMasters(reconciled);
      if Distinct(ContextMasters(old(contexts))) && Distinct(Masters(received)) {
        forall c | c in old(contexts)
          ensures Survives(c, contexts) <==> ReceivedAgain(c, received)
          ensures forall p | p in received && p.masterFd == c.masterFd :: p.fd in closed
        {
          SurvivesIffReceived(old(contexts), received, reconciled, kept, disposed, used, closed, added, contexts, c);
        }
      }
      if Distinct(Masters(received)) && Ascending(ids) {
        forall k, c | 0 <= k < |ids| && 0 <= c < |contexts| && k < |received| && contexts[c].masterFd == received[k].masterFd
          ensures contexts[c].listenerId == ids[k]
        {
          AscendingGroups(ids, k);
          assert IdSet(contexts[c], received, ids, k);
        }
      }
    }
  }
}
