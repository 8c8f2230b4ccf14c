/** `CircularBuffer<T>` of LockstepBase/CircularBuffer.cs: a fixed array
    and the index of the slot written last, -1 before the first `Add`.
    The ghost sequence `added` lists every element ever added, oldest first. */
module CircularBuffers {
  import opened Wrappers
  import opened ModArith

  /** The thrown `IndexOutOfRangeException`, with the index tried. */
  datatype IndexError = IndexOutOfRange(idx: int)

  /** `Inc`: one slot forward, wrapping from `length - 1` to 0. */
  function Inc(i: int, length: int): (r: int)
    requires length > 0
    ensures -1 <= i < length ==> 0 <= r < length
    ensures -1 <= i < length - 1 ==> r == i + 1
    ensures i == length - 1 ==> r == 0
  {
    CRem(i + 1, length)
  }

  /** `Dec`: one slot back, wrapping from 0 (or -1) to `length - 1`. */
  function Dec(i: int, length: int): (r: int)
    ensures 0 <= i < length ==> 0 <= r < length
    ensures 0 < i ==> r == i - 1
    ensures i == 0 ==> r == length - 1
  {
    if i - 1 < 0 then length - 1 else i - 1
  }

  /** On the valid slots `Inc` and `Dec` undo each other. */
  lemma IncDecInverse(i: int, length: int)
    requires 0 <= i < length
    ensures Dec(Inc(i, length), length) == i
    ensures Inc(Dec(i, length), length) == i
  {
  }

  /** Stepping back from a remainder is the remainder of one less. */
  lemma DecMod(a: int, length: int)
    requires length > 0
    ensures Dec(a % length, length) == (a - 1) % length
  {
    ModSub(a, 1, length);
    if a % length == 0 {
      ModUnique(-1, length, -1, length - 1);
    }
  }

  class CircularBuffer<T(0)> {
    const buff: array<T>
    var curIdx: int
    ghost var added: seq<T>

    /** `curIdx` is the slot of the latest element, and the last
        `buff.Length` elements added sit in slot `j % buff.Length`. */
    ghost predicate Valid()
      reads this, buff
    {
      && -1 <= curIdx < buff.Length
      && (curIdx == -1 <==> added == [])
      && (added != [] ==> curIdx == (|added| - 1) % buff.Length)
      && (forall j :: 0 <= j < |added| && |added| - buff.Length <= j ==> buff[j % buff.Length] == added[j])
    }

    constructor(size: nat)
      ensures Valid() && added == [] && buff.Length == size && fresh(buff)
    {
      buff := new T[size];
      curIdx := -1;
      added := [];
    }

    /** `IsEmpty`: true exactly before the first `Add`. */
    function IsEmpty(): (r: bool)
      requires Valid()
      reads this, buff
      ensures r <==> added == []
    {
      curIdx == -1
    }

    /** `Add`: advance the index (wrapping) and write exactly that slot. */
    method Add(x: T)
      requires Valid() && buff.Length > 0
      modifies this, buff
      ensures Valid() && added == old(added) + [x]
      ensures curIdx == Inc(old(curIdx), buff.Length) && 0 <= curIdx < buff.Length
      ensures buff[..] == old(buff[..])[curIdx := x]
    {
      var L := buff.Length;
      if added != [] {
        ModSub(|added| - 1, -1, L);
      }
      curIdx := Inc(curIdx, L);
      buff[curIdx] := x;
      added := added + [x];
      forall j | 0 <= j < |added| - 1 && |added| - L <= j
        ensures j % L != curIdx
      {
        ModDistinct(j, |added| - 1, L);
      }
    }

    /** `GetTop`: the element added last. */
    function GetTop(): (r: T)
      requires Valid() && added != []
      reads this, buff
      ensures r == added[|added| - 1]
    {
      buff[curIdx]
    }

    /** `GetNth(n)`: walk back `n` slots from the latest. Within the last
        `buff.Length` adds this is the element added `n` adds before the
        latest; further back the walk wraps round the array. On an empty
        buffer the walk starts at -1: with no step it reads slot -1 and
        throws, and with one or more it wraps to the top slot and returns
        whatever the array holds there. */
    method GetNth(n: int) returns (r: Result<T, IndexError>)
      requires Valid()
      ensures r.Failure? <==> added == [] && (n <= 0 || buff.Length == 0)
      ensures r.Failure? ==> r.error == IndexOutOfRange(-1)
      ensures added != [] && n <= 0 ==> r == Success(GetTop())
      ensures 0 <= n < buff.Length && n < |added| ==> r == Success(added[|added| - 1 - n])
      ensures added != [] && n >= 0 ==> r == Success(buff[(curIdx - n) % buff.Length])
      ensures added == [] && n >= 1 && buff.Length > 0 ==> r == Success(buff[(-n) % buff.Length])
    {
      var L, c := buff.Length, curIdx;
      var idx := c;
      var i := 0;
      if c >= 0 {
        ModSmall(c, L);
      }
      while i < n
        invariant 0 <= i <= if n < 0 then 0 else n
        invariant L == 0 ==> idx == -1
        invariant L > 0 && c >= 0 ==> idx == (c - i) % L
        invariant L > 0 && c == -1 ==> idx == if i == 0 then -1 else (-i) % L
      {
        if L > 0 {
          if c >= 0 {
            DecMod(c - i, L);
          } else if i == 0 {
            ModUnique(-1, L, -1, L - 1);
          } else {
            DecMod(-i, L);
          }
        }
        idx := Dec(idx, L);
        i := i + 1;
      }
      if idx < 0 || idx >= L {
        return Failure(IndexOutOfRange(idx));
      }
      r := Success(buff[idx]);
      if 0 <= n < L && n < |added| {
        var j := |added| - 1 - n;
        ModSub(|added| - 1, n, L);
        assert idx == j % L;
      }
    }
  }
}

/** `CircularBuff<T>` of LockstepBase/DataStructures.cs: `_curIdx` counts the
    adds (minus one) without wrapping, and every access reduces it with C#'s
    `%`, whose remainder takes the sign of the dividend. */
module CircularBuffs {
  import opened Wrappers
  import opened ModArith

  /** The thrown `IndexOutOfRangeException`, with the index tried. */
  datatype BuffError = IndexOutOfRange(idx: int)

  class CircularBuff<T(0)> {
    const buff: array<T>
    var curIdx: int
    ghost var added: seq<T>

    /** `curIdx` is one less than the number of adds, and the last
        `buff.Length` elements added sit in slot `j % buff.Length`. */
    ghost predicate Valid()
      reads this, buff
    {
      && curIdx == |added| - 1
      && (added != [] ==> buff.Length > 0)
      && (forall j :: 0 <= j < |added| && |added| - buff.Length <= j ==> buff[j % buff.Length] == added[j])
    }

    constructor(size: nat)
      ensures Valid() && added == [] && buff.Length == size && fresh(buff)
    {
      buff := new T[size];
      curIdx := -1;
      added := [];
    }

    /** `Count`: the number of adds, not capped at the capacity. */
    function Count(): (r: int)
      requires Valid()
      reads this, buff
      ensures r == |added|
    {
      curIdx + 1
    }

    /** `IsEmpty`: true exactly before the first `Add`. */
    function IsEmpty(): (r: bool)
      requires Valid()
      reads this, buff
      ensures r <==> added == []
    {
      curIdx == -1
    }

    /** `CurIdx`: the slot of the latest element; before the first `Add` it
        is -1, or 0 when the capacity is 1. */
    function CurIdx(): (r: int)
      requires Valid() && buff.Length > 0
      reads this, buff
      ensures added != [] ==> 0 <= r < buff.Length && r == (|added| - 1) % buff.Length
      ensures added == [] ==> r == if buff.Length == 1 then 0 else -1
    {
      CRem(curIdx, buff.Length)
    }

    /** `Add`: count the add, then write the slot it reduces to. */
    method Add(x: T)
      requires Valid() && buff.Length > 0
      modifies this, buff
      ensures Valid() && added == old(added) + [x]
      ensures buff[..] == old(buff[..])[(|added| - 1) % buff.Length := x]
    {
      var L := buff.Length;
      curIdx := curIdx + 1;
      var k := CRem(curIdx, L);
      buff[k] := x;
      added := added + [x];
      forall j | 0 <= j < |added| - 1 && |added| - L <= j
        ensures j % L != k
      {
        ModDistinct(j, |added| - 1, L);
      }
    }

    /** `GetTop`: the element added last; before the first `Add` the index
        -1 is out of range, except with capacity 1, where slot 0 holds the
        array's default. */
    function GetTop(): (r: Result<T, BuffError>)
      requires Valid() && buff.Length > 0
      reads this, buff
      ensures added != [] ==> r == Success(added[|added| - 1])
      ensures added == [] ==> (r.Failure? <==> buff.Length > 1)
    {
      var k := CurIdx();
      if k < 0 then Failure(IndexOutOfRange(k)) else Success(buff[k])
    }

    /** `GetLast(n)`: the element added `n` adds before the latest. Reaching
        before the first add is out of range unless the distance is a
        multiple of the capacity. */
    function GetLast(n: int): (r: Result<T, BuffError>)
      requires Valid() && buff.Length > 0
      reads this, buff
      ensures 0 <= n <= curIdx && n < buff.Length ==> r == Success(added[|added| - 1 - n])
      ensures r.Failure? <==> n > curIdx && (n - curIdx) % buff.Length != 0
    {
      var k := CRem(curIdx - n, buff.Length);
      if k < 0 then Failure(IndexOutOfRange(k)) else Success(buff[k])
    }
  }
}
