/** Passing open descriptors from the master process to its HTTP workers: the
    list is cut into messages, each holding at most MAX_N_FDS descriptors, and put
    together again by the receiver. */
module DescriptorPassing {

  const MAX_N_FDS: nat := 253

  /** Control parts are padded to eight bytes, the size of two descriptors. */
  function Padded(n: nat): nat { n + n % 2 }

  /** The descriptors the control buffer has room for. */
  const CONTROL_ROOM: nat := 254

  /** A received descriptor and its number in the master process. */
  datatype FdPair = FdPair(fd: int, masterFd: int)

  /** The payload is a flag and the sender's numbers; the rights are the
      descriptors in the control part. */
  datatype Message = Message(more: bool, numbers: seq<int>, rights: seq<int>)

  /** What one receive call gives: nothing to read yet, another failure, a message
      without rights or the end of the stream, or a message whose rights were installed
      under new numbers. */
  datatype Arrival = Blocked | Failed | Bare | Got(more: bool, numbers: seq<int>, installed: seq<int>)

  function Chunks(fds: seq<int>): seq<Message> {
    if fds == [] then []
    else if |fds| > MAX_N_FDS then
      [Message(true, fds[..MAX_N_FDS], fds[..MAX_N_FDS])] + Chunks(fds[MAX_N_FDS..])
    else [Message(false, fds, fds)]
  }

  function Numbers(messages: seq<Message>): seq<int> {
    if messages == [] then [] else messages[0].numbers + Numbers(messages[1..])
  }

  ghost predicate WellCut(messages: seq<Message>) {
    forall k | 0 <= k < |messages| ::
      && messages[k].rights == messages[k].numbers
      && 0 < |messages[k].rights| <= MAX_N_FDS
      && (messages[k].more <==> k < |messages| - 1)
      && (messages[k].more ==> |messages[k].rights| == MAX_N_FDS)
  }

  /** n descriptors take ceil(n / MAX_N_FDS) messages; all but the last are full
      and announce more; nothing is lost, repeated or moved. */
  lemma {:induction false} ChunksCutTheList(fds: seq<int>)
    ensures WellCut(Chunks(fds)) && Numbers(Chunks(fds)) == fds
    ensures |Chunks(fds)| == (|fds| + MAX_N_FDS - 1) / MAX_N_FDS
    decreases |fds|
  {
    if |fds| > MAX_N_FDS {
      var rest := fds[MAX_N_FDS..];
      ChunksCutTheList(rest);
      var messages := Chunks(fds);
      assert messages[1..] == Chunks(rest);
      assert fds == fds[..MAX_N_FDS] + rest;
      forall k | 0 <= k < |messages|
        ensures messages[k].rights == messages[k].numbers && 0 < |messages[k].rights| <= MAX_N_FDS
        ensures messages[k].more <==> k < |messages| - 1
        ensures messages[k].more ==> |messages[k].rights| == MAX_N_FDS
      {
        if k > 0 {
          assert messages[k] == Chunks(rest)[k - 1];
        }
      }
    } else if fds != [] {
      assert Numbers([Message(false, fds, fds)]) == fds;
    }
  }

  function Zip(local: seq<int>, numbers: seq<int>): seq<FdPair>
    requires |local| == |numbers|
  {
    seq(|local|, i requires 0 <= i < |local| => FdPair(local[i], numbers[i]))
  }

  /** Place by place: each local descriptor with its number in the sender. */
  ghost predicate PairedUp(pairs: seq<FdPair>, local: seq<int>, numbers: seq<int>) {
    && |pairs| == |local| == |numbers|
    && forall i | 0 <= i < |pairs| :: pairs[i].fd == local[i] && pairs[i].masterFd == numbers[i]
  }

  function FdsOf(s: seq<FdPair>): seq<int> {
    seq(|s|, i requires 0 <= i < |s| => s[i].fd)
  }

  /** What fits: a control part holds at most MAX_N_FDS rights and the payload buffer
      as many numbers. A message without any right counts as bare. */
  ghost predicate Sound(a: Arrival) {
    a.Got? ==> 0 < |a.installed| <= MAX_N_FDS && |a.numbers| <= MAX_N_FDS
  }

  function Min(a: nat, b: nat): nat { if a < b then a else b }

  ghost predicate AllSound(arrivals: seq<Arrival>) {
    forall k | 0 <= k < |arrivals| :: Sound(arrivals[k])
  }

  /** A buffer with some integers put at its front. */
  function Filled(buffer: seq<int>, s: seq<int>): (r: seq<int>)
    requires |s| <= |buffer|
    ensures |r| == |buffer|
  {
    s + buffer[|s|..]
  }

  /** The pairs one message gives: each right that finds room with what the payload
      buffer then holds in its place. */
  function PairsOf(a: Arrival, room: nat, buffer: seq<int>): seq<FdPair>
    requires a.Got? && |a.installed| <= MAX_N_FDS && |a.numbers| <= |buffer| == MAX_N_FDS
  {
    var n := Min(room, |a.installed|);
    Zip(a.installed[..n], Filled(buffer, a.numbers)[..n])
  }

  /** The descriptors taken in before the end or a failure, with room in the
      control buffer for the given number: the kernel fills in at most that many,
      and leaves the buffer's length at what it filled in. The payload buffer keeps
      what a shorter payload does not overwrite. */
  ghost function Taken(arrivals: seq<Arrival>, room: nat, buffer: seq<int>): seq<FdPair>
    requires AllSound(arrivals) && |buffer| == MAX_N_FDS
  {
    if arrivals == [] || !arrivals[0].Got? then []
    else
      assert Sound(arrivals[0]);
      PairsOf(arrivals[0], room, buffer) +
      if arrivals[0].more
      then Taken(arrivals[1..], Padded(Min(room, |arrivals[0].installed|)), Filled(buffer, arrivals[0].numbers)) else []
  }

  /** Whether a message announcing no more is reached before anything fails. */
  predicate Finished(arrivals: seq<Arrival>) {
    arrivals != [] && arrivals[0].Got? && (arrivals[0].more ==> Finished(arrivals[1..]))
  }

  /** The messages as they arrive, their rights installed under the local numbers. */
  function Delivery(messages: seq<Message>, local: seq<int>): seq<Arrival>
    requires |local| == |Numbers(messages)|
  {
    if messages == [] then []
    else
      var n := |messages[0].numbers|;
      [Got(messages[0].more, messages[0].numbers, local[..n])] + Delivery(messages[1..], local[n..])
  }

  lemma ZipSplit(local: seq<int>, numbers: seq<int>, n: nat)
    requires |local| == |numbers| && n <= |local|
    ensures Zip(local, numbers) == Zip(local[..n], numbers[..n]) + Zip(local[n..], numbers[n..])
  {
  }

  /** Receiving what was sent yields the list again, in order, every descriptor
      paired with its number in the sender. The full messages keep the room in the
      control buffer, so none is cut short. */
  lemma {:induction false} RoundTrip(fds: seq<int>, local: seq<int>, buffer: seq<int>)
    requires |local| == |fds| && fds != [] && |buffer| == MAX_N_FDS
    ensures Numbers(Chunks(fds)) == fds
    ensures var arrivals := Delivery(Chunks(fds), local);
            && |arrivals| == |Chunks(fds)| && AllSound(arrivals) && Finished(arrivals)
            && Taken(arrivals, CONTROL_ROOM, buffer) == Zip(local, fds) && PairedUp(Zip(local, fds), local, fds)
    decreases |fds|
  {
    ChunksCutTheList(fds);
    var arrivals := Delivery(Chunks(fds), local);
    if |fds| > MAX_N_FDS {
      var rest, localRest := fds[MAX_N_FDS..], local[MAX_N_FDS..];
      var first := Got(true, fds[..MAX_N_FDS], local[..MAX_N_FDS]);
      RoundTrip(rest, localRest, Filled(buffer, first.numbers));
      assert Chunks(fds)[1..] == Chunks(rest);
      assert arrivals == [first] + Delivery(Chunks(rest), localRest);
      ZipSplit(local, fds, MAX_N_FDS);
      MatchedPairs(first, CONTROL_ROOM, buffer);
    } else {
      assert Chunks(fds) == [Message(false, fds, fds)];
      assert Delivery([], local[|fds|..]) == [] && local[..|fds|] == local;
      assert arrivals == [Got(false, fds, local)];
      MatchedPairs(arrivals[0], CONTROL_ROOM, buffer);
    }
  }

  // A message with as many numbers as rights, and room for all, overwrites what it uses of the buffer.
  lemma MatchedPairs(a: Arrival, room: nat, buffer: seq<int>)
    requires a.Got? && |a.installed| == |a.numbers| <= MAX_N_FDS == |buffer| && |a.installed| <= room
    ensures PairsOf(a, room, buffer) == Zip(a.installed, a.numbers)
  {
  }

  /** The descriptors the messages carry, whether or not the buffer has room. */
  ghost function Carried(arrivals: seq<Arrival>): seq<int> {
    if arrivals == [] || !arrivals[0].Got? then []
    else arrivals[0].installed + if arrivals[0].more then Carried(arrivals[1..]) else []
  }

  /** No message carries more than the one before it, but for the padding. */
  ghost predicate NeverGrow(arrivals: seq<Arrival>, room: nat) {
    arrivals != [] && arrivals[0].Got? ==>
      && |arrivals[0].installed| <= room
      && (arrivals[0].more ==> NeverGrow(arrivals[1..], Padded(|arrivals[0].installed|)))
  }

  /** The length of the control buffer is set once and then left at what the last
      message filled, so a run of messages from any sender is taken in whole exactly
      when the messages never grow. */
  lemma {:induction false} TakenWholeIffNeverGrow(arrivals: seq<Arrival>, room: nat, buffer: seq<int>)
    requires AllSound(arrivals) && |buffer| == MAX_N_FDS
    ensures |Taken(arrivals, room, buffer)| <= |Carried(arrivals)|
    ensures FdsOf(Taken(arrivals, room, buffer)) == Carried(arrivals) <==> NeverGrow(arrivals, room)
  {
    if arrivals != [] && arrivals[0].Got? {
      TakenFds(arrivals, room, buffer);
      var n := Min(room, |arrivals[0].installed|);
      if arrivals[0].more {
        var buffer' := Filled(buffer, arrivals[0].numbers);
        TakenWholeIffNeverGrow(arrivals[1..], Padded(n), buffer');
        AppendEqualIff(arrivals[0].installed, n, FdsOf(Taken(arrivals[1..], Padded(n), buffer')), Carried(arrivals[1..]));
      } else {
        AppendEqualIff(arrivals[0].installed, n, [], []);
      }
    }
  }

  /** A message larger than the one before it loses a descriptor. */
  lemma GrowingMessageIsCut(buffer: seq<int>)
    requires |buffer| == MAX_N_FDS
    ensures var arrivals := [Got(true, [10], [20]), Got(false, [11, 12, 13], [21, 22, 23])];
            AllSound(arrivals) && FdsOf(Taken(arrivals, CONTROL_ROOM, buffer)) == [20, 21, 22]
  {
    var arrivals := [Got(true, [10], [20]), Got(false, [11, 12, 13], [21, 22, 23])];
    var buffer' := Filled(buffer, [10]);
    TakenFds(arrivals, CONTROL_ROOM, buffer);
    assert arrivals[1..] == [Got(false, [11, 12, 13], [21, 22, 23])];
    TakenFds(arrivals[1..], 2, buffer');
  }

  lemma AppendEqualIff(installed: seq<int>, n: nat, taken: seq<int>, carried: seq<int>)
    requires n <= |installed| && |taken| <= |carried|
    ensures |installed[..n] + taken| <= |installed + carried|
    ensures installed[..n] + taken == installed + carried <==> n == |installed| && taken == carried
  {
    if n == |installed| {
      assert installed[..n] == installed;
      assert (installed + taken)[n..] == taken && (installed + carried)[n..] == carried;
    }
  }

  // The descriptors taken in: those of the first message, then the others.
  lemma TakenFds(arrivals: seq<Arrival>, room: nat, buffer: seq<int>)
    requires AllSound(arrivals) && arrivals != [] && arrivals[0].Got? && |buffer| == MAX_N_FDS
    ensures Sound(arrivals[0]) && |FdsOf(Taken(arrivals, room, buffer))| == |Taken(arrivals, room, buffer)|
    ensures var n := Min(room, |arrivals[0].installed|);
            var buffer' := Filled(buffer, arrivals[0].numbers);
            FdsOf(Taken(arrivals, room, buffer)) ==
            arrivals[0].installed[..n] + if arrivals[0].more then FdsOf(Taken(arrivals[1..], Padded(n), buffer')) else []
  {
    assert Sound(arrivals[0]);
    var n := Min(room, |arrivals[0].installed|);
    var first := PairsOf(arrivals[0], room, buffer);
    var others := if arrivals[0].more then Taken(arrivals[1..], Padded(n), Filled(buffer, arrivals[0].numbers)) else [];
    assert Taken(arrivals, room, buffer) == first + others;
    FdsOfAppend(first, others);
    assert FdsOf(first) == arrivals[0].installed[..n];
  }

  lemma FdsOfAppend(a: seq<FdPair>, b: seq<FdPair>)
    ensures FdsOf(a + b) == FdsOf(a) + FdsOf(b)
  {
  }

  lemma DeliveryStep(fds: seq<int>, local: seq<int>)
    requires |local| == |fds| > MAX_N_FDS
    ensures var rest, localRest := fds[MAX_N_FDS..], local[MAX_N_FDS..];
            && Chunks(fds)[1..] == Chunks(rest) && Numbers(Chunks(rest)) == rest && Numbers(Chunks(fds)) == fds
            && Delivery(Chunks(fds), local) ==
               [Got(true, fds[..MAX_N_FDS], local[..MAX_N_FDS])] + Delivery(Chunks(rest), localRest)
  {
    ChunksCutTheList(fds);
    ChunksCutTheList(fds[MAX_N_FDS..]);
    assert Chunks(fds)[1..] == Chunks(fds[MAX_N_FDS..]);
  }

  /** When the transfer breaks off after j messages, exactly the descriptors of
      these messages have been obtained. */
  lemma {:induction false} BreakOff(fds: seq<int>, local: seq<int>, j: nat, tail: seq<Arrival>, buffer: seq<int>)
    requires |local| == |fds| && j < |Chunks(fds)| && |buffer| == MAX_N_FDS
    requires AllSound(tail) && (tail != [] ==> !tail[0].Got?)
    ensures Numbers(Chunks(fds)) == fds && |Delivery(Chunks(fds), local)| == |Chunks(fds)| && j * MAX_N_FDS < |fds|
    ensures var arrivals := Delivery(Chunks(fds), local)[..j] + tail;
            && AllSound(arrivals) && !Finished(arrivals)
            && FdsOf(Taken(arrivals, CONTROL_ROOM, buffer)) == local[..j * MAX_N_FDS]
    decreases |fds|
  {
    DeliveryFits(fds, local);
    if j == 0 {
      assert Delivery(Chunks(fds), local)[..j] + tail == tail;
    } else {
      var rest, localRest := fds[MAX_N_FDS..], local[MAX_N_FDS..];
      DeliveryStep(fds, local);
      var first := Got(true, fds[..MAX_N_FDS], local[..MAX_N_FDS]);
      BreakOff(rest, localRest, j - 1, tail, Filled(buffer, first.numbers));
      PrefixOfCons(first, Delivery(Chunks(rest), localRest), j, tail);
      BreakOffStep(first, Delivery(Chunks(rest), localRest)[..j - 1] + tail, local, j, buffer);
    }
  }

  lemma DeliveryFits(fds: seq<int>, local: seq<int>)
    requires |local| == |fds|
    ensures Numbers(Chunks(fds)) == fds && |Delivery(Chunks(fds), local)| == |Chunks(fds)|
  {
    ChunksCutTheList(fds);
    if fds != [] {
      RoundTrip(fds, local, seq(MAX_N_FDS, _ => 0));
    }
  }

  lemma PrefixOfCons(first: Arrival, others: seq<Arrival>, j: nat, tail: seq<Arrival>)
    requires 0 < j <= |others| + 1
    ensures ([first] + others)[..j] + tail == [first] + (others[..j - 1] + tail)
  {
  }

  lemma BreakOffStep(first: Arrival, others: seq<Arrival>, local: seq<int>, j: nat, buffer: seq<int>)
    requires first.Got? && first.more && Sound(first) && AllSound(others) && !Finished(others) && |buffer| == MAX_N_FDS
    requires 0 < j && j * MAX_N_FDS <= |local| && first.installed == local[..MAX_N_FDS]
    requires FdsOf(Taken(others, CONTROL_ROOM, Filled(buffer, first.numbers))) == local[MAX_N_FDS..][..(j - 1) * MAX_N_FDS]
    ensures AllSound([first] + others) && !Finished([first] + others)
    ensures FdsOf(Taken([first] + others, CONTROL_ROOM, buffer)) == local[..j * MAX_N_FDS]
  {
    var arrivals := [first] + others;
    assert arrivals[1..] == others;
    TakenFds(arrivals, CONTROL_ROOM, buffer);
    assert first.installed[..MAX_N_FDS] == local[..MAX_N_FDS];
    SliceInTwo(local, MAX_N_FDS, (j - 1) * MAX_N_FDS);
  }

  lemma SliceInTwo(s: seq<int>, m: nat, n: nat)
    requires m + n <= |s|
    ensures s[..m + n] == s[..m] + s[m..][..n]
  {
  }

  /** Puts a run of integers at the front of a buffer. */
  method CopyInto(buffer: array<int>, s: seq<int>)
    requires |s| <= buffer.Length
    modifies buffer
    ensures buffer[..] == Filled(old(buffer[..]), s) && buffer[..|s|] == s
    ensures forall k | |s| <= k < buffer.Length :: buffer[k] == old(buffer[k])
  {
    for i := 0 to |s|
      invariant forall k | 0 <= k < i :: buffer[k] == s[k]
      invariant forall k | i <= k < buffer.Length :: buffer[k] == old(buffer[k])
    {
      buffer[i] := s[i];
    }
  }

  /** Sends the list; the socket takes the given number of messages and then
      fails. */
  method SendFds(fds: seq<int>, capacity: nat) returns (status: int, sent: seq<Message>)
    ensures status == 0 ==> sent == Chunks(fds)
    ensures status != 0 ==> status == -1 && |sent| == capacity && sent < Chunks(fds)
    ensures status == 0 <==> |Chunks(fds)| <= capacity
  {
    var nFds, fdsIt := |fds|, 0;
    var hasMoreFds := false;
    var cmsgData := new int[MAX_N_FDS];
    sent := [];
    while fdsIt < nFds
      invariant fdsIt <= nFds && |sent| <= capacity
      invariant Chunks(fds) == sent + Chunks(fds[fdsIt..])
    {
      var nFdsToSend := nFds - fdsIt;
      if nFdsToSend > MAX_N_FDS {
        nFdsToSend := MAX_N_FDS;
        hasMoreFds := true;
      } else {
        hasMoreFds := false;
      }
      var payload := fds[fdsIt..fdsIt + nFdsToSend];
      ghost var rest := fds[fdsIt..];
      CopyInto(cmsgData, payload);
      fdsIt := fdsIt + nFdsToSend;
      assert payload == rest[..nFdsToSend] && fds[fdsIt..] == rest[nFdsToSend..];
      if |sent| == capacity {
        return -1, sent;
      }
      var message := Message(hasMoreFds, payload, cmsgData[..nFdsToSend]);
      assert rest[..|rest|] == rest && rest[|rest|..] == [];
      assert Chunks(rest) == [message] + Chunks(rest[nFdsToSend..]);
      assert sent + ([message] + Chunks(fds[fdsIt..])) == (sent + [message]) + Chunks(fds[fdsIt..]);
      sent := sent + [message];
    }
    status := 0;
  }

  /** Closes the descriptors one by one. */
  method CloseAndClear(vec: seq<FdPair>) returns (closed: seq<int>)
    ensures closed == FdsOf(vec)
  {
    closed := [];
    for i := 0 to |vec|
      invariant closed == FdsOf(vec[..i])
    {
      closed := closed + [vec[i].fd];
    }
    assert vec[..|vec|] == vec;
  }

  /** Takes in one message: pairs the descriptors in the control buffer with what
      the payload buffer holds. */
  method ReceiveOne(pairs: seq<FdPair>, arrival: Arrival, controlRoom: nat, cmsgData: array<int>, fds: array<int>)
    returns (result: seq<FdPair>, nFds: nat)
    requires arrival.Got? && Sound(arrival) && cmsgData.Length == CONTROL_ROOM && fds.Length == MAX_N_FDS
    modifies cmsgData, fds
    ensures nFds == Min(controlRoom, |arrival.installed|)
    ensures fds[..] == Filled(old(fds[..]), arrival.numbers)
    ensures result == pairs + PairsOf(arrival, controlRoom, old(fds[..]))
    // a number the payload does not give is what an earlier message left in the buffer
    ensures |result| == |pairs| + nFds && result[..|pairs|] == pairs
    ensures forall i | 0 <= i < nFds :: result[|pairs| + i].fd == arrival.installed[i]
    ensures forall i | 0 <= i < nFds ::
              result[|pairs| + i].masterFd == if i < |arrival.numbers| then arrival.numbers[i] else old(fds[i])
  {
    nFds := Min(controlRoom, |arrival.installed|);
    CopyInto(fds, arrival.numbers);
    ghost var numbers := fds[..];
    var installed := arrival.installed[..nFds];
    CopyInto(cmsgData, installed);
    result := pairs;
    for i := 0 to nFds
      invariant cmsgData[..nFds] == installed && fds[..] == numbers
      invariant result == pairs + Zip(installed[..i], numbers[..i])
    {
      assert cmsgData[..nFds][i] == installed[i] && fds[..][i] == numbers[i];
      result := result + [FdPair(cmsgData[i], fds[i])];
    }
    assert installed[..nFds] == installed;
  }

  /** Half way through a list: what is obtained in all is what is at hand and what
      is still ahead. */
  ghost predicate Reading(arrivals: seq<Arrival>, stack: seq<int>, ahead: seq<Arrival>, pairs: seq<FdPair>, room: nat,
                          buffer: seq<int>, more: bool) {
    && AllSound(arrivals) && AllSound(ahead) && |stack| == |buffer| == MAX_N_FDS
    && Taken(arrivals, CONTROL_ROOM, stack) == pairs + (if more then Taken(ahead, room, buffer) else [])
    && Finished(arrivals) == (more ==> Finished(ahead))
  }

  lemma ReadOne(arrivals: seq<Arrival>, stack: seq<int>, ahead: seq<Arrival>, pairs: seq<FdPair>, room: nat, buffer: seq<int>)
    requires Reading(arrivals, stack, ahead, pairs, room, buffer, true) && ahead != [] && ahead[0].Got?
    ensures Sound(ahead[0])
    ensures Reading(arrivals, stack, ahead[1..], pairs + PairsOf(ahead[0], room, buffer),
                    Padded(Min(room, |ahead[0].installed|)), Filled(buffer, ahead[0].numbers), ahead[0].more)
  {
    assert Sound(ahead[0]);
    var others := if ahead[0].more
                  then Taken(ahead[1..], Padded(Min(room, |ahead[0].installed|)), Filled(buffer, ahead[0].numbers)) else [];
    assert Taken(ahead, room, buffer) == PairsOf(ahead[0], room, buffer) + others;
  }

  /** Where receiving stops: at a message announcing no more, at a failure, or at the
      end of the stream. */
  function Stop(arrivals: seq<Arrival>): (n: nat)
    ensures n <= |arrivals|
  {
    if arrivals == [] || !arrivals[0].Got? || !arrivals[0].more then 0 else 1 + Stop(arrivals[1..])
  }

  /** Receives a list, given what each receive call will give; beyond these the stream
      has ended. All or nothing: after a failure the result is empty and what was
      obtained so far has been closed, each descriptor once. The payload buffer is not
      initialised: `stack` is what it happens to hold. */
  method ReceiveFds(arrivals: seq<Arrival>, stack: seq<int>)
    returns (result: seq<FdPair>, closed: seq<int>, used: nat, again: bool)
    requires AllSound(arrivals) && |stack| == MAX_N_FDS
    ensures Finished(arrivals) ==> result == Taken(arrivals, CONTROL_ROOM, stack) && closed == []
    ensures !Finished(arrivals) ==> result == [] && closed == FdsOf(Taken(arrivals, CONTROL_ROOM, stack))
    ensures used == Min(Stop(arrivals) + 1, |arrivals|)
    ensures again <==> Stop(arrivals) < |arrivals| && arrivals[Stop(arrivals)].Blocked?
  {
    var fds, cmsgData := new int[MAX_N_FDS], new int[CONTROL_ROOM];
    CopyInto(fds, stack);
    var controlRoom: nat, hasMoreFds, k: nat := CONTROL_ROOM, true, 0;
    result, closed := [], [];
    ghost var ahead := arrivals;
    assert fds[..] == stack;
    while hasMoreFds
      invariant k <= |arrivals| && ahead == arrivals[k..]
      invariant Reading(arrivals, stack, ahead, result, controlRoom, fds[..], hasMoreFds)
      invariant closed == []
      invariant hasMoreFds ==> Stop(arrivals) == k + Stop(ahead)
      invariant !hasMoreFds ==> k == Stop(arrivals) + 1 && arrivals[k - 1].Got?
      decreases |arrivals| - k, hasMoreFds
    {
      if k == |arrivals| || !arrivals[k].Got? {
        closed := CloseAndClear(result);
        result := [];
        used := Min(k + 1, |arrivals|);
        again := k < |arrivals| && arrivals[k].Blocked?;
        return;
      }
      ReadOne(arrivals, stack, ahead, result, controlRoom, fds[..]);
      var nFds: nat;
      result, nFds := ReceiveOne(result, arrivals[k], controlRoom, cmsgData, fds);
      controlRoom := Padded(nFds);
      hasMoreFds := arrivals[k].more;
      k := k + 1;
      ahead := ahead[1..];
    }
    used, again := k, false;
  }

  /** A whole transfer: what the master sends is what the worker gets, when the
      kernel installs the descriptors under the given local numbers. */
  method Transfer(fds: seq<int>, local: seq<int>, stack: seq<int>) returns (result: seq<FdPair>, closed: seq<int>)
    requires fds != [] && |local| == |fds| && |stack| == MAX_N_FDS
    ensures result == Zip(local, fds) && PairedUp(result, local, fds) && closed == []
  {
    var status, sent := SendFds(fds, |Chunks(fds)|);
    RoundTrip(fds, local, stack);
    var arrivals := Delivery(sent, local);
    var used, again;
    result, closed, used, again := ReceiveFds(arrivals, stack);
  }
}
