/**
 * The operand stack: a fixed array of `Capacity` words and a `top` cursor.
 * `Contents()` is the live part of the array; the words above `top` are
 * stale and never observed.
 */
module Stacks {
  import opened Wrappers
  import opened Words

  class Stack {
    const arr: array<Word>
    var top: nat

    ghost predicate Valid()
      reads this
    {
      arr.Length == Capacity && top <= Capacity
    }

    function Contents(): (s: seq<Word>)
      reads this, arr
      requires Valid()
      ensures |s| == top
    {
      arr[..top]
    }

    /** `Stack::new`: every cell zero, cursor at 0. */
    constructor ()
      ensures Valid() && fresh(arr)
      ensures Contents() == []
    {
      arr := new Word[Capacity](_ => 0);
      top := 0;
    }

    /** `push32`: stores at the cursor when there is room, otherwise drops the word. */
    method Push32(w: Word)
      requires Valid()
      modifies this, arr
      ensures Valid()
      ensures Contents() == Push(old(Contents()), w)
      ensures old(top) == Capacity ==> top == old(top) && arr[..] == old(arr[..])
    {
      if top < Capacity {
        arr[top] := w;
        top := top + 1;
        assert arr[..top] == old(arr[..top]) + [w];
      }
    }

    /** `push1`: a byte widened to a word. */
    method Push1(b: Byte)
      requires Valid()
      modifies this, arr
      ensures Valid()
      ensures Contents() == Push(old(Contents()), b)
    {
      Push32(b);
    }

    /** `pop`: `None` on an empty stack, otherwise the top word with the cursor moved down. */
    method Pop() returns (r: Option<Word>)
      requires Valid()
      modifies this
      ensures Valid()
      ensures old(top) == 0 ==> r == None && top == 0
      ensures old(top) > 0 ==> r == Some(old(Contents())[old(top) - 1])
      ensures Words.Pop(old(Contents())) == if r.None? then None else Some((r.value, Contents()))
    {
      if top == 0 {
        r := None;
      } else {
        top := top - 1;
        r := Some(arr[top]);
        assert old(Contents())[..top] == arr[..top];
      }
    }

    /** `swap`: exchanges the two topmost live cells; the source panics below two words. */
    method Swap()
      requires Valid() && top >= 2
      modifies arr
      ensures Valid() && top == old(top)
      ensures Contents() == SwapTop(old(Contents()))
    {
      arr[top - 1], arr[top - 2] := arr[top - 2], arr[top - 1];
    }
  }
}
