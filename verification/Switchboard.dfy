/** The atomic switchboard of a module: 64 bits that callers switch on and off,
    each call reporting the bits it actually changed. A 64-bit word is kept as
    the set of its one bits. */
module Switchboard {

  const WIDTH: nat := 64

  type Bit = b: nat | b < WIDTH
  type Word = set<Bit>

  function Or(a: Word, b: Word): Word { a + b }
  function And(a: Word, b: Word): Word { a * b }
  function Xor(a: Word, b: Word): Word { (a - b) + (b - a) }
  function Not(a: Word): Word { set b: Bit | b < WIDTH && b !in a }

  datatype Operation = On | Off

  /** One call as the atomic instruction orders it, with what it reported. */
  datatype Call = Call(op: Operation, mask: Word, reported: Word)

  datatype Result = Reported(bits: Word) | NoSuchSwitchboard

  function Switched(board: Word, op: Operation, mask: Word): Word {
    if op.On? then Or(board, mask) else And(board, Not(mask))
  }

  function Report(board: Word, op: Operation, mask: Word): Word {
    if op.On? then And(Xor(board, mask), mask) else And(board, mask)
  }

  /** A bit is reported exactly when the call changed it. */
  lemma ReportsWhatChanged(board: Word, op: Operation, mask: Word)
    ensures Report(board, op, mask) == Xor(board, Switched(board, op, mask))
  {
  }

  /** The calls take the board from one value to another, in this order. */
  ghost predicate IsHistory(calls: seq<Call>, from: Word, to: Word)
    decreases |calls|
  {
    if calls == [] then from == to
    else calls[0].reported == Report(from, calls[0].op, calls[0].mask)
         && IsHistory(calls[1..], Switched(from, calls[0].op, calls[0].mask), to)
  }

  function Transitions(calls: seq<Call>, op: Operation, bit: Bit): nat {
    if calls == [] then 0
    else (if calls[0].op == op && bit in calls[0].reported then 1 else 0) + Transitions(calls[1..], op, bit)
  }

  function Value(board: Word, bit: Bit): int {
    if bit in board then 1 else 0
  }

  /** However the calls of all callers interleave, the "on" calls that reported a
      bit exceed the "off" calls that reported it by exactly the change in the
      bit, so each transition of the bit has exactly one owner. */
  lemma {:induction false} TransitionsAddUp(calls: seq<Call>, from: Word, to: Word, bit: Bit)
    requires IsHistory(calls, from, to)
    ensures Transitions(calls, On, bit) - Transitions(calls, Off, bit) == Value(to, bit) - Value(from, bit)
    decreases |calls|
  {
    if calls != [] {
      TransitionsAddUp(calls[1..], Switched(from, calls[0].op, calls[0].mask), to, bit);
    }
  }

  class Module {
    var switchboard: Word

    /** Only switchboard 0 exists. */
    method AtomicSwitch(op: Operation, board: nat, mask: Word) returns (r: Result)
      modifies this
      ensures board > 0 ==> r == NoSuchSwitchboard && unchanged(this)
      ensures board == 0 ==> r == Reported(Xor(old(switchboard), switchboard))
      ensures board == 0 ==> switchboard == if op.On? then old(switchboard) + mask else old(switchboard) - mask
    {
      if board > 0 {
        return NoSuchSwitchboard;
      }
      var m := switchboard;
      ReportsWhatChanged(m, op, mask);
      switchboard := Switched(m, op, mask);
      r := Reported(Report(m, op, mask));
    }
  }
}
