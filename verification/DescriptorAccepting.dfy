/** The worker's side of passing descriptors: its socket does not block, so receiving
    is tried again, from the beginning, whenever there is nothing to read yet. */
module DescriptorAccepting {
  import opened DescriptorPassing

  /** What trying again and again returns; after the given number of attempts a reload
      or the end of the worker is requested, and the worker gives up. */
  ghost function Accepted(arrivals: seq<Arrival>, stack: seq<int>, attempts: nat): seq<FdPair>
    requires AllSound(arrivals) && |stack| == MAX_N_FDS
    decreases |arrivals|
  {
    var n := Stop(arrivals);
    if attempts == 0 then []
    else if n < |arrivals| && arrivals[n].Blocked? then Accepted(arrivals[n + 1..], stack, attempts - 1)
    else if Finished(arrivals) then Taken(arrivals, CONTROL_ROOM, stack)
    else []
  }

  /** The retry loop. */
  method AcceptFds(arrivals: seq<Arrival>, stack: seq<int>, attempts: nat) returns (result: seq<FdPair>)
    requires AllSound(arrivals) && |stack| == MAX_N_FDS
    ensures result == Accepted(arrivals, stack, attempts)
  {
    var ahead, left, again := arrivals, attempts, true;
    result := [];
    while again
      invariant AllSound(ahead)
      invariant Accepted(arrivals, stack, attempts) == if again then Accepted(ahead, stack, left) else result
      decreases again, |ahead|, left
    {
      if left == 0 {
        return [];
      }
      var closed, used;
      result, closed, used, again := ReceiveFds(ahead, stack);
      ahead, left := ahead[used..], left - 1;
    }
  }

  // ---- streams with waits in between ----

  /** The messages of a stream, without the moments at which there was nothing to read. */
  function Unblocked(arrivals: seq<Arrival>): seq<Arrival> {
    if arrivals == [] then []
    else (if arrivals[0].Blocked? then [] else [arrivals[0]]) + Unblocked(arrivals[1..])
  }

  /** No wait comes between two messages. */
  ghost predicate WaitsOutside(arrivals: seq<Arrival>) {
    forall i, j, k | 0 <= i < j < k < |arrivals| && arrivals[i].Got? && arrivals[k].Got? :: !arrivals[j].Blocked?
  }

  function Rights(arrivals: seq<Arrival>): nat {
    if arrivals == [] then 0
    else (if arrivals[0].Got? then |arrivals[0].installed| else 0) + Rights(arrivals[1..])
  }

  lemma {:induction false} RightsAppend(a: seq<Arrival>, b: seq<Arrival>)
    ensures Rights(a + b) == Rights(a) + Rights(b)
  {
    if a == [] {
      assert a + b == b;
    } else {
      assert (a + b)[1..] == a[1..] + b;
      RightsAppend(a[1..], b);
    }
  }

  lemma {:induction false} RightsUnblocked(arrivals: seq<Arrival>)
    ensures Rights(Unblocked(arrivals)) == Rights(arrivals)
  {
    if arrivals != [] {
      RightsUnblocked(arrivals[1..]);
      if !arrivals[0].Blocked? {
        assert Unblocked(arrivals)[1..] == Unblocked(arrivals[1..]);
      } else {
        assert Unblocked(arrivals) == Unblocked(arrivals[1..]);
      }
    }
  }

  lemma {:induction false} CarriedAtMost(arrivals: seq<Arrival>)
    ensures |Carried(arrivals)| <= Rights(arrivals)
  {
    if arrivals != [] {
      CarriedAtMost(arrivals[1..]);
    }
  }

  lemma {:induction false} AcceptedAtMost(arrivals: seq<Arrival>, stack: seq<int>, attempts: nat)
    requires AllSound(arrivals) && |stack| == MAX_N_FDS
    ensures |Accepted(arrivals, stack, attempts)| <= Rights(arrivals)
    decreases |arrivals|
  {
    var n := Stop(arrivals);
    if attempts == 0 {
    } else if n < |arrivals| && arrivals[n].Blocked? {
      AcceptedAtMost(arrivals[n + 1..], stack, attempts - 1);
      assert arrivals == arrivals[..n + 1] + arrivals[n + 1..];
      RightsAppend(arrivals[..n + 1], arrivals[n + 1..]);
    } else if Finished(arrivals) {
      TakenWholeIffNeverGrow(arrivals, CONTROL_ROOM, stack);
      CarriedAtMost(arrivals);
    }
  }

  /** The first n arrivals are messages that announce more. */
  ghost predicate MoreFor(arrivals: seq<Arrival>, n: nat) {
    n <= |arrivals| && forall k | 0 <= k < n :: arrivals[k].Got? && arrivals[k].more
  }

  lemma {:induction false} StopsAt(arrivals: seq<Arrival>, n: nat)
    requires MoreFor(arrivals, n) && n < |arrivals| && !(arrivals[n].Got? && arrivals[n].more)
    ensures Stop(arrivals) == n && (Finished(arrivals) <==> arrivals[n].Got?)
  {
    if n > 0 {
      StopsAt(arrivals[1..], n - 1);
    }
  }

  lemma {:induction false} TakenPrefix(arrivals: seq<Arrival>, n: nat, room: nat, buffer: seq<int>)
    requires AllSound(arrivals) && |buffer| == MAX_N_FDS && Stop(arrivals) < n <= |arrivals|
    ensures AllSound(arrivals[..n]) && Taken(arrivals[..n], room, buffer) == Taken(arrivals, room, buffer)
  {
    if arrivals[0].Got? && arrivals[0].more {
      assert Sound(arrivals[0]);
      assert arrivals[..n][1..] == arrivals[1..][..n - 1];
      TakenPrefix(arrivals[1..], n - 1, Padded(Min(room, |arrivals[0].installed|)), Filled(buffer, arrivals[0].numbers));
    }
  }

  // ---- a list that was sent ----

  lemma {:induction false} DeliveryFlags(messages: seq<Message>, local: seq<int>, k: nat)
    requires |local| == |Numbers(messages)| && k < |messages|
    ensures |Delivery(messages, local)| == |messages|
    ensures Delivery(messages, local)[k].Got? && Delivery(messages, local)[k].more == messages[k].more
    decreases |messages|
  {
    var n := |messages[0].numbers|;
    if |messages| > 1 {
      DeliveryFlags(messages[1..], local[n..], if k > 0 then k - 1 else 0);
    } else {
      assert messages[1..] == [];
    }
  }

  lemma {:induction false} DeliveryRights(messages: seq<Message>, local: seq<int>)
    requires |local| == |Numbers(messages)|
    ensures Rights(Delivery(messages, local)) == |local|
    decreases |messages|
  {
    if messages != [] {
      var n := |messages[0].numbers|;
      DeliveryRights(messages[1..], local[n..]);
      assert Delivery(messages, local)[1..] == Delivery(messages[1..], local[n..]);
    }
  }

  /** The delivery of a list: messages of which exactly the last announces no more. */
  ghost predicate IsDelivery(sent: seq<Arrival>, fds: seq<int>, local: seq<int>) {
    && fds != [] && |local| == |fds| && |Numbers(Chunks(fds))| == |fds|
    && sent == Delivery(Chunks(fds), local)
  }

  lemma DeliveryShape(sent: seq<Arrival>, fds: seq<int>, local: seq<int>)
    requires IsDelivery(sent, fds, local)
    ensures sent != [] && MoreFor(sent, |sent| - 1) && sent[|sent| - 1].Got? && !sent[|sent| - 1].more
    ensures Rights(sent) == |fds|
  {
    ChunksCutTheList(fds);
    DeliveryRights(Chunks(fds), local);
    forall k | 0 <= k < |Chunks(fds)| ensures |sent| == |Chunks(fds)| && sent[k].Got? && sent[k].more == Chunks(fds)[k].more {
      DeliveryFlags(Chunks(fds), local, k);
    }
    assert Chunks(fds) != [];
    DeliveryFlags(Chunks(fds), local, 0);
  }

  /** How many messages come at once at the beginning. */
  function Leading(arrivals: seq<Arrival>): (n: nat)
    ensures n <= |arrivals| && (n < |arrivals| ==> !arrivals[n].Got?)
    ensures forall k | 0 <= k < n :: arrivals[k].Got?
  {
    if arrivals == [] || !arrivals[0].Got? then 0 else 1 + Leading(arrivals[1..])
  }

  lemma {:induction false} UnblockedFrom(arrivals: seq<Arrival>, n: nat)
    requires n <= |arrivals| && forall k | 0 <= k < n :: arrivals[k].Got?
    ensures Unblocked(arrivals) == arrivals[..n] + Unblocked(arrivals[n..])
  {
    if n > 0 {
      UnblockedFrom(arrivals[1..], n - 1);
      assert arrivals[1..][n - 1..] == arrivals[n..];
      assert arrivals[..n] == [arrivals[0]] + arrivals[1..][..n - 1];
    } else {
      assert arrivals[..0] == [] && arrivals[0..] == arrivals;
    }
  }

  lemma {:induction false} UnblockedElements(arrivals: seq<Arrival>)
    ensures forall k | 0 <= k < |arrivals| :: arrivals[k].Blocked? || arrivals[k] in Unblocked(arrivals)
    ensures Unblocked(arrivals) != [] ==> exists k :: 0 <= k < |arrivals| && arrivals[k] == Unblocked(arrivals)[0]
  {
    if arrivals != [] {
      UnblockedElements(arrivals[1..]);
      forall k | 0 <= k < |arrivals| ensures arrivals[k].Blocked? || arrivals[k] in Unblocked(arrivals) {
        if k > 0 {
          assert arrivals[k] == arrivals[1..][k - 1];
        }
      }
      if Unblocked(arrivals) != [] {
        if arrivals[0].Blocked? {
          assert Unblocked(arrivals) == Unblocked(arrivals[1..]);
          var k :| 0 <= k < |arrivals[1..]| && arrivals[1..][k] == Unblocked(arrivals)[0];
          assert arrivals[k + 1] == Unblocked(arrivals)[0];
        } else {
          assert arrivals[0] == Unblocked(arrivals)[0];
        }
      }
    }
  }

  // A stream that begins with a message has its waits outside exactly when all messages come at once.
  lemma WaitsOutsideIffLeading(arrivals: seq<Arrival>, sent: seq<Arrival>)
    requires Unblocked(arrivals) == sent && (forall m | m in sent :: m.Got?) && arrivals != [] && arrivals[0].Got?
    ensures Leading(arrivals) <= |sent| && arrivals[..Leading(arrivals)] == sent[..Leading(arrivals)]
    ensures WaitsOutside(arrivals) <==> Leading(arrivals) == |sent|
    ensures Leading(arrivals) < |sent| ==> Leading(arrivals) < |arrivals| && arrivals[Leading(arrivals)].Blocked?
  {
    var g := Leading(arrivals);
    var tail := arrivals[g..];
    UnblockedFrom(arrivals, g);
    UnblockedElements(tail);
    if g < |sent| {
      assert Unblocked(tail) != [];
      var k :| 0 <= k < |tail| && tail[k] == Unblocked(tail)[0];
      assert tail[k] == sent[g] && sent[g] in sent;
      assert forall m | m in Unblocked(tail) :: m in sent;
      assert tail[0] == arrivals[g];
      assert arrivals[g].Blocked? && arrivals[g + k].Got? && k > 0;
    } else {
      assert Unblocked(tail) == [];
      forall j | g <= j < |arrivals| ensures !arrivals[j].Got? {
        assert arrivals[j] == tail[j - g];
      }
    }
  }

  // All messages at once: the whole list.
  lemma AllAtOnce(arrivals: seq<Arrival>, sent: seq<Arrival>, fds: seq<int>, local: seq<int>, stack: seq<int>, attempts: nat)
    requires IsDelivery(sent, fds, local) && AllSound(arrivals) && |stack| == MAX_N_FDS
    requires |sent| <= |arrivals| && arrivals[..|sent|] == sent && attempts > 0
    ensures Accepted(arrivals, stack, attempts) == Zip(local, fds)
  {
    var d := |sent|;
    DeliveryShape(sent, fds, local);
    assert forall k | 0 <= k < d :: arrivals[k] == sent[k];
    StopsAt(arrivals, d - 1);
    TakenPrefix(arrivals, d, CONTROL_ROOM, stack);
    RoundTrip(fds, local, stack);
  }

  // A wait in between: what came before it is dropped.
  lemma CutInTwo(arrivals: seq<Arrival>, sent: seq<Arrival>, fds: seq<int>, local: seq<int>, stack: seq<int>, attempts: nat)
    requires IsDelivery(sent, fds, local) && Unblocked(arrivals) == sent && AllSound(arrivals) && |stack| == MAX_N_FDS
    requires arrivals != [] && arrivals[0].Got? && attempts > 0
    requires var g := Leading(arrivals); g < |sent| && arrivals[..g] == sent[..g] && g < |arrivals| && arrivals[g].Blocked?
    ensures |Accepted(arrivals, stack, attempts)| < |fds|
  {
    var g := Leading(arrivals);
    DeliveryShape(sent, fds, local);
    assert MoreFor(arrivals, g) by {
      assert forall k | 0 <= k < g :: arrivals[k] == arrivals[..g][k] == sent[k];
    }
    StopsAt(arrivals, g);
    AcceptedAtMost(arrivals[g + 1..], stack, attempts - 1);
    RightsUnblocked(arrivals);
    RightsAfter(arrivals, g + 1);
  }

  lemma RightsAfter(arrivals: seq<Arrival>, n: nat)
    requires AllSound(arrivals) && 0 < n <= |arrivals| && arrivals[0].Got?
    ensures Rights(arrivals[n..]) < Rights(arrivals)
  {
    assert Sound(arrivals[0]);
    var tail := arrivals[1..];
    assert tail == tail[..n - 1] + arrivals[n..];
    RightsAppend(tail[..n - 1], arrivals[n..]);
  }

  /** The waits before anything arrives. */
  function WaitsBefore(arrivals: seq<Arrival>): nat {
    if arrivals == [] || !arrivals[0].Blocked? then 0 else 1 + WaitsBefore(arrivals[1..])
  }

  /** Whenever the messages of a list arrive, with any waits before, between and after
      them: the worker accepts the list that was sent if and only if it does not give up
      before the first and no wait comes between two of its messages. */
  lemma {:induction false} AcceptedIffWaitsOutside(arrivals: seq<Arrival>, fds: seq<int>, local: seq<int>,
                                                   stack: seq<int>, attempts: nat)
    requires IsDelivery(Unblocked(arrivals), fds, local) && AllSound(arrivals) && |stack| == MAX_N_FDS
    ensures Accepted(arrivals, stack, attempts) == Zip(local, fds)
       <==> WaitsBefore(arrivals) < attempts && WaitsOutside(arrivals)
    decreases |arrivals|
  {
    DeliveryIsNotEmpty(arrivals, fds, local);
    if attempts == 0 {
      assert |Zip(local, fds)| > 0;
    } else if arrivals[0].Blocked? {
      FirstWaitPasses(arrivals, stack, attempts);
      AcceptedIffWaitsOutside(arrivals[1..], fds, local, stack, attempts - 1);
      FirstWaitDoesNotMatter(arrivals);
    } else {
      AcceptedFromMessage(arrivals, Unblocked(arrivals), fds, local, stack, attempts);
    }
  }

  lemma FirstWaitPasses(arrivals: seq<Arrival>, stack: seq<int>, attempts: nat)
    requires AllSound(arrivals) && |stack| == MAX_N_FDS && arrivals != [] && arrivals[0].Blocked? && attempts > 0
    ensures AllSound(arrivals[1..]) && Unblocked(arrivals) == Unblocked(arrivals[1..])
    ensures Accepted(arrivals, stack, attempts) == Accepted(arrivals[1..], stack, attempts - 1)
    ensures WaitsBefore(arrivals) == 1 + WaitsBefore(arrivals[1..])
  {
  }

  lemma DeliveryIsNotEmpty(arrivals: seq<Arrival>, fds: seq<int>, local: seq<int>)
    requires IsDelivery(Unblocked(arrivals), fds, local)
    ensures arrivals != []
  {
    DeliveryShape(Unblocked(arrivals), fds, local);
  }

  lemma AcceptedFromMessage(arrivals: seq<Arrival>, sent: seq<Arrival>, fds: seq<int>, local: seq<int>,
                            stack: seq<int>, attempts: nat)
    requires IsDelivery(sent, fds, local) && Unblocked(arrivals) == sent && AllSound(arrivals) && |stack| == MAX_N_FDS
    requires arrivals != [] && !arrivals[0].Blocked? && attempts > 0
    ensures Accepted(arrivals, stack, attempts) == Zip(local, fds) <==> WaitsOutside(arrivals)
  {
    DeliveryShape(sent, fds, local);
    assert arrivals[0] == sent[0];
    forall m | m in sent ensures m.Got? {
      var k :| 0 <= k < |sent| && sent[k] == m;
    }
    WaitsOutsideIffLeading(arrivals, sent);
    if Leading(arrivals) == |sent| {
      AllAtOnce(arrivals, sent, fds, local, stack, attempts);
    } else {
      CutInTwo(arrivals, sent, fds, local, stack, attempts);
    }
  }

  lemma FirstWaitDoesNotMatter(arrivals: seq<Arrival>)
    requires arrivals != [] && arrivals[0].Blocked?
    ensures WaitsOutside(arrivals) <==> WaitsOutside(arrivals[1..])
  {
    var rest := arrivals[1..];
    assert forall i | 0 <= i < |rest| :: rest[i] == arrivals[i + 1];
    if WaitsOutside(rest) {
      forall i, j, k | 0 <= i < j < k < |arrivals| && arrivals[i].Got? && arrivals[k].Got? ensures !arrivals[j].Blocked? {
        assert rest[i - 1].Got? && rest[k - 1].Got? && rest[j - 1] == arrivals[j];
      }
    }
  }

  /** A wait after the first message of a longer list: the worker takes what is left for
      the whole list. */
  lemma WaitDropsTheHead(fds: seq<int>, local: seq<int>, stack: seq<int>, attempts: nat)
    requires |local| == |fds| > MAX_N_FDS && |stack| == MAX_N_FDS && attempts > 1
    ensures Numbers(Chunks(fds[MAX_N_FDS..])) == fds[MAX_N_FDS..]
    ensures var rest, localRest := fds[MAX_N_FDS..], local[MAX_N_FDS..];
            var arrivals := [Got(true, fds[..MAX_N_FDS], local[..MAX_N_FDS]), Blocked] + Delivery(Chunks(rest), localRest);
            AllSound(arrivals) && Accepted(arrivals, stack, attempts) == Zip(localRest, rest)
  {
    var rest, localRest := fds[MAX_N_FDS..], local[MAX_N_FDS..];
    ChunksCutTheList(rest);
    RoundTrip(rest, localRest, stack);
    var sent := Delivery(Chunks(rest), localRest);
    var arrivals := [Got(true, fds[..MAX_N_FDS], local[..MAX_N_FDS]), Blocked] + sent;
    StopsAt(arrivals, 1);
    assert arrivals[2..] == sent && sent[..|sent|] == sent;
    AllAtOnce(sent, sent, rest, localRest, stack, attempts - 1);
  }
}
