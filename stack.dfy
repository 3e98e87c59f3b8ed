/** `NMEAStack`: a last-in-first-out store of `StackSize` records; pushing
    onto a full stack drops the new record. */
module Stack {
  import opened Record

  /** The records a push leaves on a stack holding `c`: one more unless it was full. */
  function Pushed(c: seq<NMEAData>, r: NMEAData): seq<NMEAData>
  {
    if |c| < StackSize then c + [r] else c
  }

  class NmeaStack {
    const stack: array<NMEAData>
    /** The first free position. */
    var lastIndex: int

    ghost predicate Valid()
      reads this
    {
      stack.Length == StackSize && 0 <= lastIndex <= StackSize
    }

    /** The records on the stack, oldest first. */
    ghost function Contents(): (c: seq<NMEAData>)
      requires Valid()
      reads this, stack
      ensures |c| == lastIndex
    {
      stack[..lastIndex]
    }

    /** Every slot starts as an empty record and the stack is empty. */
    constructor ()
      ensures Valid() && fresh(stack) && lastIndex == 0 && Contents() == []
      ensures forall i :: 0 <= i < StackSize ==> stack[i] == EmptyRecord()
    {
      var slots := new NMEAData[StackSize];
      for i := 0 to StackSize
        invariant forall k :: 0 <= k < i ==> slots[k] == EmptyRecord()
      {
        slots[i] := EmptyRecord();
      }
      stack := slots;
      lastIndex := 0;
    }

    /** Stores `nmea` at `lastIndex` and answers the new `lastIndex`; on a full
        stack answers -1 and changes nothing. */
    method Push(nmea: NMEAData) returns (r: int)
      requires Valid()
      modifies this, stack
      ensures Valid()
      ensures old(lastIndex) < StackSize ==>
                r == lastIndex == old(lastIndex) + 1 &&
                stack[..] == old(stack[..])[old(lastIndex) := nmea]
      ensures old(lastIndex) == StackSize ==>
                r == -1 && lastIndex == StackSize && stack[..] == old(stack[..])
      ensures Contents() == Pushed(old(Contents()), nmea)
    {
      if lastIndex < StackSize {
        stack[lastIndex] := nmea;
        lastIndex := lastIndex + 1;
        r := lastIndex;
      } else {
        lastIndex := StackSize;
        r := -1;
      }
    }

    /** Removes and answers the most recent record; on an empty stack answers
        an empty record and leaves `lastIndex` at 0. The slot is not cleared. */
    method Pop() returns (r: NMEAData)
      requires Valid()
      modifies this
      ensures Valid() && stack[..] == old(stack[..])
      ensures old(lastIndex) > 0 ==>
                lastIndex == old(lastIndex) - 1 &&
                r == old(Contents())[lastIndex] && Contents() == old(Contents())[..lastIndex]
      ensures old(lastIndex) == 0 ==> lastIndex == 0 && r == EmptyRecord()
    {
      r := EmptyRecord();
      if lastIndex > 0 {
        lastIndex := lastIndex - 1;
        r := stack[lastIndex];
      }
    }

    /** The next free position, which is the number of records held. */
    method GetIndex() returns (r: int)
      requires Valid()
      ensures r == |Contents()| && 0 <= r <= StackSize
    {
      r := lastIndex;
    }
  }

  /** A push below capacity followed by a pop gives back the pushed record
      and the stack as it was. */
  method PushThenPop(st: NmeaStack, r: NMEAData) returns (popped: NMEAData)
    requires st.Valid() && st.lastIndex < StackSize
    modifies st, st.stack
    ensures st.Valid()
    ensures popped == r && st.lastIndex == old(st.lastIndex) && st.Contents() == old(st.Contents())
  {
    var _ := st.Push(r);
    popped := st.Pop();
  }
}
